/** The writer's artifact is a file the reader accepts, exactly when its counts and offsets fit the reader's widths. */
module PostingsArtifact {
  import opened Words
  import opened PostingBlock
  import opened PostingOrder
  import opened PostingsFile
  import DirectoryBlock

  // The directory of valid groups.

  lemma DirectoryAppends(es: seq<Entry>, e: Entry, base: nat)
    requires DirectoryBlock.Linked(es) && DirectoryOk(es, base) && DirectoryBlock.WritableEntry(e) && EntryFollows(es, e, base)
    ensures DirectoryBlock.Linked(es + [e]) && DirectoryOk(es + [e], base)
    ensures PostingEnd(es + [e], base) == e.offset + e.length
    ensures OccurrenceTotal(es + [e]) == OccurrenceTotal(es) + e.occurrences
    ensures DirectoryBlock.CountsFit(es + [e]) <==> DirectoryBlock.CountsFit(es) && e.occurrences <= U32_MAX
  {
    hide DirectoryBlock.WritableEntry;
    var t := es + [e];
    assert t[..|es|] == es && t[|es|] == e;
    if DirectoryBlock.CountsFit(t) {
      assert forall i :: 0 <= i < |es| ==> es[i] == t[i];
    }
  }

  /** The directory of valid groups is linked, starts after the header and ends with the posting section. */
  lemma {:induction false} EntriesLink(gs: seq<HashGroup>)
    requires ValidHashGroups(gs) && HEADER_SIZE + |PostingBytes(gs)| <= U64_MAX
    ensures DirectoryBlock.Linked(EntriesOf(gs)) && DirectoryOk(EntriesOf(gs), HEADER_SIZE)
    ensures PostingEnd(EntriesOf(gs), HEADER_SIZE) == HEADER_SIZE + |PostingBytes(gs)|
    ensures OccurrenceTotal(EntriesOf(gs)) == |GroupRecords(gs)| <= |PostingBytes(gs)|
    ensures |gs| <= |PostingBytes(gs)|
    ensures gs != [] ==> EntriesOf(gs)[|gs| - 1].hash == gs[|gs| - 1].hash
    ensures DirectoryBlock.CountsFit(EntriesOf(gs)) <==> GroupCountsFit(gs)
  {
    hide EncodeGroups, Occurrences, MinPly, MaxPly, ValidGroups;
    hide DirectoryBlock.WritableEntry, DirectoryBlock.Linked, DirectoryBlock.CountsFit, DirectoryOk;
    if gs == [] {
      NoEntries();
    } else {
      var front, g := gs[..|gs| - 1], gs[|gs| - 1];
      assert ValidHashGroup(g);
      EntriesLink(front);
      var e := EntryOf(g, HEADER_SIZE + |PostingBytes(front)|);
      EntryIsWritable(g, HEADER_SIZE + |PostingBytes(front)|);
      DirectoryAppends(EntriesOf(front), e, HEADER_SIZE);
      assert GroupCountsFit(gs) <==> GroupCountsFit(front) && e.occurrences <= U32_MAX;
    }
  }

  lemma NoEntries()
    ensures DirectoryBlock.Linked([]) && DirectoryBlock.CountsFit([]) && DirectoryOk([], HEADER_SIZE)
  {
  }

  predicate GroupCountsFit(gs: seq<HashGroup>) {
    forall i :: 0 <= i < |gs| ==> |Occurrences(gs[i].games)| <= U32_MAX
  }

  lemma EntryIsWritable(g: HashGroup, offset: nat)
    requires ValidHashGroup(g) && offset + |EncodeGroups(0, g.games)| <= U64_MAX
    ensures DirectoryBlock.WritableEntry(EntryOf(g, offset))
    ensures |EncodeGroups(0, g.games)| >= |Occurrences(g.games)| >= 1
  {
    BlockLength(0, g.games);
    OccurrencesAscend(0, g.games);
    PlyRange(Occurrences(g.games));
  }

  lemma {:induction false} EntryAt(gs: seq<HashGroup>, i: nat)
    requires i < |gs|
    ensures EntriesOf(gs)[i] == EntryOf(gs[i], HEADER_SIZE + |PostingBytes(gs[..i])|)
    ensures Holds(PostingBytes(gs), |PostingBytes(gs[..i])|, EncodeGroups(0, gs[i].games))
  {
    hide EncodeGroups, EntryOf;
    var n := |gs| - 1;
    var front := PostingBytes(gs[..n]);
    if i < n {
      EntryAt(gs[..n], i);
      assert gs[..n][..i] == gs[..i];
      HoldsInPrefix(front, EncodeGroups(0, gs[n].games), |PostingBytes(gs[..i])|, EncodeGroups(0, gs[i].games));
    } else {
      assert gs[..i] == gs[..n];
      assert (front + EncodeGroups(0, gs[n].games))[|front|..] == EncodeGroups(0, gs[n].games);
    }
  }

  lemma EntryHashAt(gs: seq<HashGroup>, i: nat)
    requires i < |gs|
    ensures EntriesOf(gs)[i].hash == gs[i].hash
  {
    hide EntriesOf, EncodeGroups, Occurrences, PostingBytes, Holds, MinPly, MaxPly;
    EntryAt(gs, i);
  }

  lemma HoldsInPrefix(data: seq<byte>, more: seq<byte>, offset: nat, s: seq<byte>)
    requires Holds(data, offset, s)
    ensures Holds(data + more, offset, s)
  {
    assert (data + more)[offset..offset + |s|] == data[offset..offset + |s|];
  }

  /** What lies in a section lies in the file, shifted by the section's offset. */
  lemma HoldsInSection(file: seq<byte>, base: nat, section: seq<byte>, offset: nat, s: seq<byte>)
    requires Holds(file, base, section) && Holds(section, offset, s)
    ensures Holds(file, base + offset, s)
  {
    var part := file[base..base + |section|];
    assert part == section;
    forall i | 0 <= i < |s|
      ensures file[base + offset + i] == s[i]
    {
      assert part[offset + i] == section[offset..offset + |s|][i];
    }
    assert file[base + offset..base + offset + |s|] == s;
  }

  // Directory blocks.

  lemma {:induction false} BlocksLink(es: seq<Entry>)
    requires DirectoryBlock.Linked(es)
    ensures forall i :: 0 <= i < |BlocksOf(es)| ==> BlocksOf(es)[i] != [] && DirectoryBlock.Linked(BlocksOf(es)[i])
    ensures forall i :: 0 <= i < |BlocksOf(es)| - 1 ==> BlocksOf(es)[i][0].hash < BlocksOf(es)[i + 1][0].hash
    ensures es != [] ==> BlocksOf(es) != [] && BlocksOf(es)[0][0] == es[0]
    ensures |BlocksOf(es)| <= |es|
    ensures DirectoryBlock.CountsFit(es) <==> forall i :: 0 <= i < |BlocksOf(es)| ==> DirectoryBlock.CountsFit(BlocksOf(es)[i])
  {
    var n := DirectoryBlock.MAX_ENTRIES;
    if |es| > n {
      var first, rest := es[..n], es[n..];
      LinkedParts(es, n);
      BlocksLink(rest);
      hide DirectoryBlock.Linked, DirectoryBlock.CountsFit;
      var blocks := BlocksOf(es);
      assert blocks == [first] + BlocksOf(rest);
      assert forall i :: 0 < i < |blocks| ==> blocks[i] == BlocksOf(rest)[i - 1];
      assert forall i :: 0 <= i < |BlocksOf(rest)| ==> blocks[i + 1] == BlocksOf(rest)[i];
      assert blocks[0] == first;
    } else if es != [] {
      assert BlocksOf(es) == [es];
    }
  }

  lemma LinkedParts(es: seq<Entry>, n: nat)
    requires DirectoryBlock.Linked(es) && 0 < n < |es|
    ensures DirectoryBlock.Linked(es[..n]) && DirectoryBlock.Linked(es[n..]) && es[0].hash < es[n].hash
    ensures DirectoryBlock.CountsFit(es) <==> DirectoryBlock.CountsFit(es[..n]) && DirectoryBlock.CountsFit(es[n..])
  {
    hide DirectoryBlock.WritableEntry;
    HashesAscend(es, 0, n);
    CountsSplit(es, n);
  }

  lemma CountsSplit(es: seq<Entry>, n: nat)
    requires n <= |es|
    ensures DirectoryBlock.CountsFit(es) <==> DirectoryBlock.CountsFit(es[..n]) && DirectoryBlock.CountsFit(es[n..])
  {
    if DirectoryBlock.CountsFit(es[..n]) && DirectoryBlock.CountsFit(es[n..]) {
      forall i | 0 <= i < |es|
        ensures es[i].occurrences <= U32_MAX
      {
        assert es[i] == if i < n then es[..n][i] else es[n..][i - n];
      }
    }
  }

  lemma {:induction false} HashesAscend(es: seq<Entry>, i: nat, j: nat)
    requires i < j < |es| && forall k :: 0 <= k < |es| - 1 ==> es[k].hash < es[k + 1].hash
    ensures es[i].hash < es[j].hash
  {
    if i + 1 < j {
      HashesAscend(es, i, j - 1);
    }
  }

  lemma SparseAppends(sparse: seq<SparseEntry>, e: SparseEntry, base: nat)
    requires SparseOk(sparse, base) && SparseFollows(sparse, e, base)
    ensures SparseOk(sparse + [e], base) && SparseEnd(sparse + [e], base) == BlockEnd(e)
    ensures EntryTotal(sparse + [e]) == EntryTotal(sparse) + e.count
  {
    assert (sparse + [e])[..|sparse|] == sparse;
  }

  predicate ValidBlocks(blocks: seq<seq<Entry>>) {
    && (forall i :: 0 <= i < |blocks| ==> 0 < |blocks[i]| <= DirectoryBlock.MAX_ENTRIES && DirectoryBlock.Linked(blocks[i]))
    && (forall i :: 0 <= i < |blocks| - 1 ==> blocks[i][0].hash < blocks[i + 1][0].hash)
  }

  /** The sparse directory of linked blocks has the shape the reader checks. */
  lemma {:induction false} SparseFits(blocks: seq<seq<Entry>>, base: nat)
    requires ValidBlocks(blocks)
    ensures SparseOk(SparseOf(blocks, base), base)
    ensures SparseEnd(SparseOf(blocks, base), base) == base + |DirectoryBytes(blocks)|
    ensures EntryTotal(SparseOf(blocks, base)) == |Concat(blocks)|
    ensures blocks != [] ==> SparseOf(blocks, base)[|blocks| - 1].firstHash == blocks[|blocks| - 1][0].hash
  {
    hide DirectoryBlock.Encode, DirectoryBlock.Linked, SparseOk;
    if blocks == [] {
      NoSparse(base);
    } else {
      var n := |blocks| - 1;
      var front := blocks[..n];
      assert ValidBlocks(front);
      SparseFits(front, base);
      DirectoryBlock.BlockSize(blocks[n]);
      var e := SparseEntry(blocks[n][0].hash, base + |DirectoryBytes(front)|, |DirectoryBlock.Encode(blocks[n])|, |blocks[n]|);
      assert n > 0 ==> front[n - 1] == blocks[n - 1];
      SparseAppends(SparseOf(front, base), e, base);
    }
  }

  lemma NoSparse(base: nat)
    ensures SparseOk([], base)
  {
  }

  /** The i-th sparse entry points at the i-th block. */
  lemma {:induction false} SparseAt(blocks: seq<seq<Entry>>, base: nat, i: nat)
    requires i < |blocks| && ValidBlocks(blocks)
    ensures
      var e := SparseOf(blocks, base)[i];
      && e.firstHash == blocks[i][0].hash <= U64_MAX && e.count == |blocks[i]|
      && e.length == |DirectoryBlock.Encode(blocks[i])| <= DirectoryBlock.MAX_BLOCK_SIZE
      && base <= e.offset && BlockEnd(e) <= base + |DirectoryBytes(blocks)|
      && Holds(DirectoryBytes(blocks), e.offset - base, DirectoryBlock.Encode(blocks[i]))
  {
    hide DirectoryBlock.Encode, DirectoryBlock.Linked;
    var n := |blocks| - 1;
    var front, last := DirectoryBytes(blocks[..n]), DirectoryBlock.Encode(blocks[n]);
    assert ValidBlocks(blocks[..n]);
    if i < n {
      SparseAt(blocks[..n], base, i);
      HoldsInPrefix(front, last, SparseOf(blocks, base)[i].offset - base, DirectoryBlock.Encode(blocks[i]));
    } else {
      DirectoryBlock.BlockSize(blocks[n]);
      DirectoryBlock.ChainHead(blocks[n]);
      assert (front + last)[|front|..] == last;
    }
  }

  // Fixed-width records.

  predicate SparseEntryFits(e: SparseEntry) {
    e.firstHash <= U64_MAX && e.offset <= U64_MAX && e.length <= U32_MAX && e.count <= U16_MAX
  }

  lemma SparseEntryIsRead(file: seq<byte>, offset: nat, e: SparseEntry)
    requires SparseEntryFits(e) && Holds(file, offset, EncodeSparseEntry(e))
    ensures offset + SPARSE_RECORD_SIZE <= |file| && StoredSparseEntry(file, offset) == e
  {
    hide Holds, FixedAt, LittleEndian;
    var hash, at, length, count := LittleEndian(e.firstHash, 8), LittleEndian(e.offset, 8), LittleEndian(e.length, 4), LittleEndian(e.count, 2);
    HoldsConcat(file, offset, hash, at);
    HoldsConcat(file, offset, hash + at, length);
    HoldsConcat(file, offset, hash + at + length, count);
    WordCapacities();
    FixedIsStored(file, offset, 8, e.firstHash);
    FixedIsStored(file, offset + 8, 8, e.offset);
    FixedIsStored(file, offset + 16, 4, e.length);
    FixedIsStored(file, offset + 20, 2, e.count);
  }

  lemma {:induction false} SparseIsRead(file: seq<byte>, offset: nat, sparse: seq<SparseEntry>)
    requires forall i :: 0 <= i < |sparse| ==> SparseEntryFits(sparse[i])
    requires Holds(file, offset, EncodeSparse(sparse))
    ensures offset + SPARSE_RECORD_SIZE * |sparse| <= |file| && StoredSparse(file, offset, |sparse|) == sparse
  {
    hide EncodeSparseEntry, StoredSparseEntry;
    if sparse != [] {
      var n := |sparse| - 1;
      HoldsConcat(file, offset, EncodeSparse(sparse[..n]), EncodeSparseEntry(sparse[n]));
      SparseIsRead(file, offset, sparse[..n]);
      SparseEntryIsRead(file, offset + SPARSE_RECORD_SIZE * n, sparse[n]);
      assert StoredSparse(file, offset, n + 1)[..n] == StoredSparse(file, offset, n);
    }
  }

  lemma MetadataRecordIsRead(file: seq<byte>, offset: nat, r: MetadataRecord)
    requires 0 < r.id <= U32_MAX && ValidMetadata(r.metadata)
    requires Holds(file, offset, EncodeMetadataRecord(r))
    ensures offset + METADATA_RECORD_SIZE <= |file|
    ensures StoredMetadataRecord(file, offset) == r && MetadataRecordOk(file, offset)
  {
    hide Holds, FixedAt, LittleEndian;
    var m := r.metadata;
    var id, result, flags := LittleEndian(r.id, 4), LittleEndian(EncodeResult(m.result), 1), LittleEndian(Flags(m), 1);
    var white, black := LittleEndian(EloBits(m.whiteElo), 2), LittleEndian(EloBits(m.blackElo), 2);
    HoldsConcat(file, offset, id, result);
    HoldsConcat(file, offset, id + result, flags);
    HoldsConcat(file, offset, id + result + flags, white);
    HoldsConcat(file, offset, id + result + flags + white, black);
    WordCapacities();
    FixedIsStored(file, offset, 4, r.id);
    FixedIsStored(file, offset + 4, 1, EncodeResult(m.result));
    FixedIsStored(file, offset + 5, 1, Flags(m));
    FixedIsStored(file, offset + 6, 2, EloBits(m.whiteElo));
    FixedIsStored(file, offset + 8, 2, EloBits(m.blackElo));
  }

  lemma {:induction false} MetadataIsRead(file: seq<byte>, offset: nat, records: seq<MetadataRecord>)
    requires ValidRecords(records)
    requires Holds(file, offset, EncodeMetadata(records))
    ensures offset + METADATA_RECORD_SIZE * |records| <= |file|
    ensures StoredMetadata(file, offset, |records|) == records && MetadataOk(file, offset, |records|)
  {
    hide EncodeMetadataRecord, StoredMetadataRecord, MetadataRecordOk, ValidMetadata;
    if records != [] {
      var n := |records| - 1;
      HoldsConcat(file, offset, EncodeMetadata(records[..n]), EncodeMetadataRecord(records[n]));
      MetadataIsRead(file, offset, records[..n]);
      MetadataRecordIsRead(file, offset + METADATA_RECORD_SIZE * n, records[n]);
      assert StoredMetadata(file, offset, n + 1)[..n] == StoredMetadata(file, offset, n);
      assert StoredMetadata(file, offset, n + 1) == records;
    }
  }

  lemma {:induction false} WordsAreRead(file: seq<byte>, offset: nat, words: seq<nat>)
    requires forall i :: 0 <= i < |words| ==> words[i] <= U64_MAX
    requires Holds(file, offset, EncodeWords(words))
    ensures offset + 8 * |words| <= |file|
    ensures forall i :: 0 <= i < |words| ==> FixedAt(file, offset + 8 * i, 8) == words[i]
    decreases |words|
  {
    hide FixedAt, LittleEndian;
    if words != [] {
      HoldsConcat(file, offset, LittleEndian(words[0], 8), EncodeWords(words[1..]));
      WordCapacities();
      FixedIsStored(file, offset, 8, words[0]);
      WordsAreRead(file, offset + 8, words[1..]);
      forall i | 0 <= i < |words|
        ensures FixedAt(file, offset + 8 * i, 8) == words[i]
      {
        if i > 0 {
          assert offset + 8 + 8 * (i - 1) == offset + 8 * i;
          assert words[1..][i - 1] == words[i];
        }
      }
    }
  }

  predicate HeaderFits(h: Header) {
    forall i :: 0 <= i < |HeaderWords(h)| ==> HeaderWords(h)[i] <= U64_MAX
  }

  lemma HeaderIsRead(file: seq<byte>, h: Header)
    requires HeaderFits(h) && Holds(file, 0, EncodeHeader(h))
    ensures |file| >= HEADER_SIZE && StoredHeader(file) == h
    ensures file[..8] == MAGIC && FixedAt(file, 8, 4) == FORMAT_VERSION && FixedAt(file, 12, 4) == HEADER_SIZE
  {
    hide Holds, FixedAt, LittleEndian, EncodeWords;
    var version, size, words := LittleEndian(FORMAT_VERSION, 4), LittleEndian(HEADER_SIZE, 4), EncodeWords(HeaderWords(h));
    HoldsConcat(file, 0, MAGIC, version);
    HoldsConcat(file, 0, MAGIC + version, size);
    HoldsConcat(file, 0, MAGIC + version + size, words);
    WordCapacities();
    FixedIsStored(file, 8, 4, FORMAT_VERSION);
    FixedIsStored(file, 12, 4, HEADER_SIZE);
    WordsAreRead(file, 16, HeaderWords(h));
    DirectoryBlock.HeldSlice(file, 0, MAGIC);
    var w := HeaderWords(h);
    assert FixedAt(file, 16 + 8 * 0, 8) == w[0] && FixedAt(file, 16 + 8 * 1, 8) == w[1] && FixedAt(file, 16 + 8 * 2, 8) == w[2];
    assert FixedAt(file, 16 + 8 * 3, 8) == w[3] && FixedAt(file, 16 + 8 * 4, 8) == w[4] && FixedAt(file, 16 + 8 * 5, 8) == w[5];
    assert FixedAt(file, 16 + 8 * 6, 8) == w[6] && FixedAt(file, 16 + 8 * 7, 8) == w[7] && FixedAt(file, 16 + 8 * 8, 8) == w[8];
  }

  // The whole file.

  /** The widths the reader insists on. */
  predicate Representable(gs: seq<HashGroup>, records: seq<MetadataRecord>, indexedGames: nat)
    requires ValidRecords(records)
  {
    && indexedGames == |records|
    && GroupCountsFit(gs)
    && HeaderOf(gs, records, indexedGames).sparseOffset <= STREAM_MAX
    && |Artifact(gs, records, indexedGames)| <= U64_MAX
  }

  /** The artifact's sections lie where its header says, one after the other. */
  lemma SectionsHold(gs: seq<HashGroup>, records: seq<MetadataRecord>, indexedGames: nat)
    requires ValidRecords(records)
    ensures
      var file, h, blocks := Artifact(gs, records, indexedGames), HeaderOf(gs, records, indexedGames), BlocksOf(EntriesOf(gs));
      && (forall i :: 0 <= i < |blocks| ==> blocks[i] != [])
      && Holds(file, 0, EncodeHeader(h))
      && Holds(file, HEADER_SIZE, PostingBytes(gs))
      && Holds(file, h.metadataOffset, EncodeMetadata(records))
      && Holds(file, h.directoryOffset, DirectoryBytes(blocks))
      && Holds(file, h.sparseOffset, EncodeSparse(SparseOf(blocks, h.directoryOffset)))
      && SectionsTile(h, |file|)
  {
    hide Holds, EncodeHeader, PostingBytes, EncodeMetadata, DirectoryBytes, EncodeSparse, EntriesOf, BlocksOf, SparseOf;
    var h, es := HeaderOf(gs, records, indexedGames), EntriesOf(gs);
    var blocks := BlocksOf(es);
    BlocksPartition(es);
    var header, postings, metadata, directory := EncodeHeader(h), PostingBytes(gs), EncodeMetadata(records), DirectoryBytes(blocks);
    var sparse := EncodeSparse(SparseOf(blocks, h.directoryOffset));
    var file := Artifact(gs, records, indexedGames);
    DirectoryBlock.HoldsAll(file, file);
    HoldsConcat(file, 0, header, postings);
    var p := header + postings;
    HoldsConcat(file, 0, p, metadata);
    var q := p + metadata;
    HoldsConcat(file, 0, q, directory);
    HoldsConcat(file, 0, q + directory, sparse);
  }

  /** What the reader's checks of the header, the metadata and the sparse directory come to. */
  predicate FrameOk(file: seq<byte>, index: Index) {
    && HeaderOk(file) && IndexOf(file) == index
    && MetadataOk(file, index.header.metadataOffset, index.header.metadataCount)
    && SparseOk(index.sparse, index.header.directoryOffset)
    && SparseEnd(index.sparse, index.header.directoryOffset) == index.header.sparseOffset
    && EntryTotal(index.sparse) == index.header.hashCount
  }

  function ExpectedIndex(gs: seq<HashGroup>, records: seq<MetadataRecord>, indexedGames: nat): Index {
    var h, blocks := HeaderOf(gs, records, indexedGames), BlocksOf(EntriesOf(gs));
    BlocksPartition(EntriesOf(gs));
    Index(h, records, SparseOf(blocks, h.directoryOffset))
  }

  lemma HeaderIsStored(gs: seq<HashGroup>, records: seq<MetadataRecord>, indexedGames: nat, file: seq<byte>)
    requires ValidHashGroups(gs) && ValidRecords(records) && indexedGames <= U64_MAX
    requires file == Artifact(gs, records, indexedGames) && |file| <= U64_MAX
    ensures |file| >= HEADER_SIZE && StoredHeader(file) == HeaderOf(gs, records, indexedGames)
    ensures HeaderOk(file) <==> indexedGames == |records| && HeaderOf(gs, records, indexedGames).sparseOffset <= STREAM_MAX
    ensures DirectoryBlock.Linked(EntriesOf(gs)) && HEADER_SIZE + |PostingBytes(gs)| <= U64_MAX
  {
    hide Holds, EncodeHeader, EncodeMetadata, Artifact, FixedAt, StoredHeader, EncodeSparse;
    hide EntriesOf, BlocksOf, SparseOf, PostingBytes, DirectoryBytes, GroupRecords, ValidHashGroups, DirectoryBlock.Linked;
    var h := HeaderOf(gs, records, indexedGames);
    SectionsHold(gs, records, indexedGames);
    EntriesLink(gs);
    BlocksLink(EntriesOf(gs));
    HeaderIsRead(file, h);
  }

  lemma FrameIsStored(gs: seq<HashGroup>, records: seq<MetadataRecord>, indexedGames: nat, file: seq<byte>)
    requires ValidHashGroups(gs) && ValidRecords(records) && indexedGames <= U64_MAX
    requires file == Artifact(gs, records, indexedGames) && HeaderOk(file)
    ensures FrameOk(file, ExpectedIndex(gs, records, indexedGames))
    ensures ValidBlocks(BlocksOf(EntriesOf(gs)))
  {
    hide Holds, EncodeHeader, EncodeMetadata, Artifact, FixedAt, StoredHeader, EncodeSparse, StoredMetadata, StoredSparse;
    hide EntriesOf, BlocksOf, SparseOf, PostingBytes, DirectoryBytes, GroupRecords, ValidHashGroups, DirectoryBlock.Linked;
    hide MetadataOk, SparseOk, EntryTotal, ValidRecords;
    var h, es := HeaderOf(gs, records, indexedGames), EntriesOf(gs);
    var blocks := BlocksOf(es);
    HeaderIsStored(gs, records, indexedGames, file);
    SectionsHold(gs, records, indexedGames);
    MetadataIsRead(file, h.metadataOffset, records);
    BlocksPartition(es);
    BlocksLink(es);
    SparseFits(blocks, h.directoryOffset);
    SparseEntriesFit(blocks, h.directoryOffset);
    SparseIsRead(file, h.sparseOffset, SparseOf(blocks, h.directoryOffset));
  }

  lemma SparseEntriesFit(blocks: seq<seq<Entry>>, base: nat)
    requires ValidBlocks(blocks) && base + |DirectoryBytes(blocks)| <= U64_MAX
    ensures forall i :: 0 <= i < |blocks| ==> SparseEntryFits(SparseOf(blocks, base)[i])
  {
    hide DirectoryBytes, SparseOf;
    forall i | 0 <= i < |blocks|
      ensures SparseEntryFits(SparseOf(blocks, base)[i])
    {
      SparseAt(blocks, base, i);
    }
  }

  /** Each stored block decodes to the block written, unless a count is too large for the reader. */
  lemma BlockIsStored(gs: seq<HashGroup>, records: seq<MetadataRecord>, indexedGames: nat, file: seq<byte>, i: nat)
    requires ValidRecords(records) && file == Artifact(gs, records, indexedGames)
    requires i < |BlocksOf(EntriesOf(gs))| && ValidBlocks(BlocksOf(EntriesOf(gs)))
    ensures
      var block := BlocksOf(EntriesOf(gs))[i];
      BlockAt(file, ExpectedIndex(gs, records, indexedGames).sparse[i]) == if DirectoryBlock.CountsFit(block) then Some(block) else None
  {
    hide Holds, Artifact, DirectoryBytes, DirectoryBlock.Encode, DirectoryBlock.Decode, DirectoryBlock.CountsFit;
    hide EntriesOf, BlocksOf, SparseOf, EncodeMetadata, EncodeSparse, PostingBytes;
    var h, blocks := HeaderOf(gs, records, indexedGames), BlocksOf(EntriesOf(gs));
    SectionsHold(gs, records, indexedGames);
    SparseAt(blocks, h.directoryOffset, i);
    var e := ExpectedIndex(gs, records, indexedGames).sparse[i];
    HoldsInSection(file, h.directoryOffset, DirectoryBytes(blocks), e.offset - h.directoryOffset, DirectoryBlock.Encode(blocks[i]));
    DirectoryBlock.HeldSlice(file, e.offset, DirectoryBlock.Encode(blocks[i]));
    DirectoryBlock.EncodedIsDecoded(blocks[i]);
  }

  /** The artifact of valid groups and metadata is acceptable exactly when it is representable; its directory is the written one. */
  lemma ArtifactIsAcceptable(gs: seq<HashGroup>, records: seq<MetadataRecord>, indexedGames: nat, file: seq<byte>)
    requires ValidHashGroups(gs) && ValidRecords(records) && indexedGames <= U64_MAX
    requires file == Artifact(gs, records, indexedGames)
    ensures Acceptable(file) <==> Representable(gs, records, indexedGames)
    ensures Acceptable(file) ==> IndexOf(file).metadata == records && Directory(file, IndexOf(file)) == EntriesOf(gs)
  {
    hide Artifact, HeaderOk, BlockAt, EntriesOf, BlocksOf, SparseOf, PostingBytes, DirectoryBytes, GroupRecords, ValidHashGroups;
    hide DirectoryOk, MetadataOk, SparseOk, EntryTotal, ValidBlocks, DirectoryBlock.Linked, DirectoryBlock.CountsFit, Concat;
    hide ValidRecords, IndexOf, GroupCountsFit, OccurrenceTotal;
    if |file| > U64_MAX {
      TooLarge(file);
    } else {
      HeaderIsStored(gs, records, indexedGames, file);
      if HeaderOk(file) {
        FrameIsStored(gs, records, indexedGames, file);
        EntriesLink(gs);
        BlocksLink(EntriesOf(gs));
        BlocksPartition(EntriesOf(gs));
        var blocks, sparse := BlocksOf(EntriesOf(gs)), IndexOf(file).sparse;
        forall i | 0 <= i < |blocks|
          ensures BlockAt(file, sparse[i]) == if DirectoryBlock.CountsFit(blocks[i]) then Some(blocks[i]) else None
        {
          BlockIsStored(gs, records, indexedGames, file, i);
        }
        if GroupCountsFit(gs) {
          assert BlocksAt(file, sparse) == blocks;
        } else {
          var i :| 0 <= i < |blocks| && !DirectoryBlock.CountsFit(blocks[i]);
          assert BlockAt(file, sparse[i]).None?;
        }
      }
    }
  }

  lemma TooLarge(file: seq<byte>)
    requires |file| > U64_MAX
    ensures !HeaderOk(file)
  {
  }

  /** Every posting block of an artifact is the encoding of its group. */
  lemma PostingIsStored(gs: seq<HashGroup>, records: seq<MetadataRecord>, indexedGames: nat, i: nat)
    requires ValidRecords(records) && i < |gs|
    ensures
      var file, e := Artifact(gs, records, indexedGames), EntriesOf(gs)[i];
      e.offset + e.length <= |file| && file[e.offset..e.offset + e.length] == EncodeGroups(0, gs[i].games)
  {
    hide Artifact, EntriesOf, PostingBytes, EncodeGroups, Holds, Occurrences, HeaderOf, EncodeHeader, EncodeMetadata;
    SectionsHold(gs, records, indexedGames);
    EntryAt(gs, i);
    var file, e := Artifact(gs, records, indexedGames), EntriesOf(gs)[i];
    HoldsInSection(file, HEADER_SIZE, PostingBytes(gs), |PostingBytes(gs[..i])|, EncodeGroups(0, gs[i].games));
    DirectoryBlock.HeldSlice(file, e.offset, EncodeGroups(0, gs[i].games));
  }
}
