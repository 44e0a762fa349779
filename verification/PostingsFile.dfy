/** The version-6 postings artifact: header, posting blocks, game metadata, directory blocks, sparse directory. */
module PostingsFile {
  import opened Words
  import opened SortedRuns
  import opened PostingBlock
  import DirectoryBlock

  const HEADER_SIZE: nat := 88
  const METADATA_RECORD_SIZE: nat := 10
  const SPARSE_RECORD_SIZE: nat := 22
  const FORMAT_VERSION: nat := 6
  // "MOTIFPO2"
  const MAGIC: seq<byte> := [0x4D, 0x4F, 0x54, 0x49, 0x46, 0x50, 0x4F, 0x32]

  /** All occurrences of one position. */
  datatype HashGroup = HashGroup(hash: nat, games: seq<GameGroup>)

  datatype GameMetadata = GameMetadata(result: int, whiteElo: Option<int>, blackElo: Option<int>)

  datatype MetadataRecord = MetadataRecord(id: nat, metadata: GameMetadata)

  /** One sparse entry per directory block. */
  datatype SparseEntry = SparseEntry(firstHash: nat, offset: nat, length: nat, count: nat)

  predicate ValidHashGroup(g: HashGroup) {
    g.hash <= U64_MAX && g.games != [] && ValidGroups(0, g.games)
  }

  predicate ValidHashGroups(gs: seq<HashGroup>) {
    && (forall i :: 0 <= i < |gs| ==> ValidHashGroup(gs[i]))
    && (forall i, j :: 0 <= i < j < |gs| ==> gs[i].hash < gs[j].hash)
  }

  function HashRecords(g: HashGroup): (s: seq<Triple>)
    ensures |s| == |Occurrences(g.games)|
  {
    var occurrences := Occurrences(g.games);
    seq(|occurrences|, i requires 0 <= i < |occurrences| => Triple(g.hash, occurrences[i].id, occurrences[i].ply))
  }

  /** The (hash, game, ply) records that hash groups stand for, in order. */
  function GroupRecords(gs: seq<HashGroup>): seq<Triple> {
    if gs == [] then [] else GroupRecords(gs[..|gs| - 1]) + HashRecords(gs[|gs| - 1])
  }

  function PostingBytes(gs: seq<HashGroup>): seq<byte> {
    if gs == [] then [] else PostingBytes(gs[..|gs| - 1]) + EncodeGroups(0, gs[|gs| - 1].games)
  }

  function EntryOf(g: HashGroup, offset: nat): Entry {
    var occurrences := Occurrences(g.games);
    Entry(g.hash, offset, |EncodeGroups(0, g.games)|, |occurrences|, |g.games|, MinPly(occurrences), MaxPly(occurrences))
  }

  /** The directory: posting blocks follow the header without a gap. */
  function EntriesOf(gs: seq<HashGroup>): (es: seq<Entry>)
    ensures |es| == |gs|
  {
    if gs == [] then []
    else
      var front := gs[..|gs| - 1];
      EntriesOf(front) + [EntryOf(gs[|gs| - 1], HEADER_SIZE + |PostingBytes(front)|)]
  }

  /** The directory in blocks of at most 256 entries. */
  function BlocksOf(es: seq<Entry>): seq<seq<Entry>> {
    if es == [] then []
    else if |es| <= DirectoryBlock.MAX_ENTRIES then [es]
    else [es[..DirectoryBlock.MAX_ENTRIES]] + BlocksOf(es[DirectoryBlock.MAX_ENTRIES..])
  }

  function Concat<T>(blocks: seq<seq<T>>): seq<T> {
    if blocks == [] then [] else Concat(blocks[..|blocks| - 1]) + blocks[|blocks| - 1]
  }

  lemma ConcatAppends<T>(blocks: seq<seq<T>>, block: seq<T>)
    ensures Concat(blocks + [block]) == Concat(blocks) + block
  {
    assert (blocks + [block])[..|blocks|] == blocks;
  }

  function DirectoryBytes(blocks: seq<seq<Entry>>): seq<byte> {
    if blocks == [] then [] else DirectoryBytes(blocks[..|blocks| - 1]) + DirectoryBlock.Encode(blocks[|blocks| - 1])
  }

  function SparseOf(blocks: seq<seq<Entry>>, base: nat): (sparse: seq<SparseEntry>)
    requires forall i :: 0 <= i < |blocks| ==> blocks[i] != []
    ensures |sparse| == |blocks|
  {
    if blocks == [] then []
    else
      var front, last := blocks[..|blocks| - 1], blocks[|blocks| - 1];
      SparseOf(front, base)
      + [SparseEntry(last[0].hash, base + |DirectoryBytes(front)|, |DirectoryBlock.Encode(last)|, |last|)]
  }

  function EncodeSparseEntry(e: SparseEntry): (s: seq<byte>)
    ensures |s| == SPARSE_RECORD_SIZE
  {
    LittleEndian(e.firstHash, 8) + LittleEndian(e.offset, 8) + LittleEndian(e.length, 4) + LittleEndian(e.count, 2)
  }

  function EncodeSparse(sparse: seq<SparseEntry>): (s: seq<byte>)
    ensures |s| == SPARSE_RECORD_SIZE * |sparse|
  {
    if sparse == [] then [] else EncodeSparse(sparse[..|sparse| - 1]) + EncodeSparseEntry(sparse[|sparse| - 1])
  }

  /** Results are stored as 0 (Black won), 1 (draw or other) and 2 (White won). */
  function EncodeResult(result: int): byte {
    if result > 0 then 2 else if result < 0 then 0 else 1
  }

  function DecodeResult(encoded: nat): int {
    if encoded == 2 then 1 else if encoded == 0 then -1 else 0
  }

  predicate IsInt16(value: int) {
    -0x8000 <= value < 0x8000
  }

  /** A signed 16-bit value as its unsigned two's complement. */
  function ToBits16(value: int): nat
    requires IsInt16(value)
  {
    if value < 0 then value + 0x1_0000 else value
  }

  function FromBits16(bits: nat): int {
    if bits >= 0x8000 then bits - 0x1_0000 else bits
  }

  predicate ValidMetadata(m: GameMetadata) {
    && -1 <= m.result <= 1
    && (m.whiteElo.Some? ==> IsInt16(m.whiteElo.value))
    && (m.blackElo.Some? ==> IsInt16(m.blackElo.value))
  }

  function EloBits(elo: Option<int>): nat
    requires elo.Some? ==> IsInt16(elo.value)
  {
    if elo.None? then 0 else ToBits16(elo.value)
  }

  function Flags(m: GameMetadata): byte {
    (if m.whiteElo.Some? then 1 else 0) + (if m.blackElo.Some? then 2 else 0)
  }

  function EncodeMetadataRecord(r: MetadataRecord): (s: seq<byte>)
    requires ValidMetadata(r.metadata)
    ensures |s| == METADATA_RECORD_SIZE
  {
    LittleEndian(r.id, 4) + LittleEndian(EncodeResult(r.metadata.result), 1) + LittleEndian(Flags(r.metadata), 1)
    + LittleEndian(EloBits(r.metadata.whiteElo), 2) + LittleEndian(EloBits(r.metadata.blackElo), 2)
  }

  predicate ValidRecords(records: seq<MetadataRecord>) {
    && (forall i :: 0 <= i < |records| ==> 0 < records[i].id <= U32_MAX && ValidMetadata(records[i].metadata))
    && (forall i, j :: 0 <= i < j < |records| ==> records[i].id < records[j].id)
  }

  function EncodeMetadata(records: seq<MetadataRecord>): (s: seq<byte>)
    requires forall i :: 0 <= i < |records| ==> ValidMetadata(records[i].metadata)
    ensures |s| == METADATA_RECORD_SIZE * |records|
  {
    if records == [] then [] else EncodeMetadata(records[..|records| - 1]) + EncodeMetadataRecord(records[|records| - 1])
  }

  /** The header's counters and section offsets. */
  datatype Header = Header(gameCount: nat, occurrenceCount: nat, hashCount: nat, metadataOffset: nat, metadataCount: nat,
                           directoryOffset: nat, directoryLength: nat, sparseOffset: nat, sparseCount: nat)

  function EncodeWords(words: seq<nat>): (s: seq<byte>)
    ensures |s| == 8 * |words|
  {
    if words == [] then [] else LittleEndian(words[0], 8) + EncodeWords(words[1..])
  }

  function HeaderWords(h: Header): seq<nat> {
    [h.gameCount, h.occurrenceCount, h.hashCount, h.metadataOffset, h.metadataCount, h.directoryOffset, h.directoryLength,
     h.sparseOffset, h.sparseCount]
  }

  function EncodeHeader(h: Header): (s: seq<byte>)
    ensures |s| == HEADER_SIZE
  {
    MAGIC + LittleEndian(FORMAT_VERSION, 4) + LittleEndian(HEADER_SIZE, 4) + EncodeWords(HeaderWords(h))
  }

  function HeaderOf(gs: seq<HashGroup>, records: seq<MetadataRecord>, indexedGames: nat): Header {
    var metadataOffset := HEADER_SIZE + |PostingBytes(gs)|;
    var directoryOffset := metadataOffset + METADATA_RECORD_SIZE * |records|;
    var blocks := BlocksOf(EntriesOf(gs));
    var directoryLength := |DirectoryBytes(blocks)|;
    Header(indexedGames, |GroupRecords(gs)|, |gs|, metadataOffset, |records|, directoryOffset, directoryLength,
           directoryOffset + directoryLength, |blocks|)
  }

  lemma {:induction false} BlocksPartition(es: seq<Entry>)
    ensures Concat(BlocksOf(es)) == es
    ensures forall i :: 0 <= i < |BlocksOf(es)| ==> 0 < |BlocksOf(es)[i]| <= DirectoryBlock.MAX_ENTRIES
  {
    if |es| > DirectoryBlock.MAX_ENTRIES {
      var first, rest := es[..DirectoryBlock.MAX_ENTRIES], BlocksOf(es[DirectoryBlock.MAX_ENTRIES..]);
      BlocksPartition(es[DirectoryBlock.MAX_ENTRIES..]);
      ConcatCons(first, rest);
      assert es == first + es[DirectoryBlock.MAX_ENTRIES..];
    } else if es != [] {
      ConcatCons(es, []);
      assert [es] + [] == [es] && es + [] == es;
    }
  }

  lemma {:induction false} ConcatCons<T>(first: seq<T>, rest: seq<seq<T>>)
    ensures Concat([first] + rest) == first + Concat(rest)
  {
    if rest == [] {
      assert ([first] + rest)[..0] == [] && ([first] + rest)[0] == first;
      assert [] + first == first + Concat(rest);
    } else {
      var n := |rest| - 1;
      ConcatCons(first, rest[..n]);
      assert ([first] + rest)[..|rest|] == [first] + rest[..n];
      assert first + (Concat(rest[..n]) + rest[n]) == first + Concat(rest[..n]) + rest[n];
    }
  }

  /** The whole artifact for given groups and metadata; the header's game count is the builder's counter. */
  function Artifact(gs: seq<HashGroup>, records: seq<MetadataRecord>, indexedGames: nat): seq<byte>
    requires forall i :: 0 <= i < |records| ==> ValidMetadata(records[i].metadata)
  {
    var h := HeaderOf(gs, records, indexedGames);
    var blocks := BlocksOf(EntriesOf(gs));
    BlocksPartition(EntriesOf(gs));
    EncodeHeader(h) + PostingBytes(gs) + EncodeMetadata(records) + DirectoryBytes(blocks)
    + EncodeSparse(SparseOf(blocks, h.directoryOffset))
  }

  // What a reader accepts.

  function StoredHeader(file: seq<byte>): Header
    requires |file| >= HEADER_SIZE
  {
    Header(FixedAt(file, 16, 8), FixedAt(file, 24, 8), FixedAt(file, 32, 8), FixedAt(file, 40, 8), FixedAt(file, 48, 8),
           FixedAt(file, 56, 8), FixedAt(file, 64, 8), FixedAt(file, 72, 8), FixedAt(file, 80, 8))
  }

  /** The four sections tile the file after the header. */
  predicate SectionsTile(h: Header, size: nat) {
    && HEADER_SIZE <= h.metadataOffset
    && h.metadataOffset + METADATA_RECORD_SIZE * h.metadataCount == h.directoryOffset
    && h.directoryOffset + h.directoryLength == h.sparseOffset
    && h.sparseOffset + SPARSE_RECORD_SIZE * h.sparseCount == size
  }

  /** The words before the header's counts and offsets. */
  predicate HeaderStarts(file: seq<byte>) {
    HEADER_SIZE <= |file| <= U64_MAX && file[..8] == MAGIC && FixedAt(file, 8, 4) == FORMAT_VERSION && FixedAt(file, 12, 4) == HEADER_SIZE
  }

  predicate HeaderOk(file: seq<byte>) {
    && HEADER_SIZE <= |file| <= U64_MAX
    && file[..8] == MAGIC && FixedAt(file, 8, 4) == FORMAT_VERSION && FixedAt(file, 12, 4) == HEADER_SIZE
    && var h := StoredHeader(file);
      h.metadataCount == h.gameCount && SectionsTile(h, |file|) && h.metadataOffset <= STREAM_MAX && h.sparseOffset <= STREAM_MAX
  }

  function StoredMetadataRecord(file: seq<byte>, offset: nat): MetadataRecord
    requires offset + METADATA_RECORD_SIZE <= |file|
  {
    var flags := FixedAt(file, offset + 5, 1);
    MetadataRecord(FixedAt(file, offset, 4),
                   GameMetadata(DecodeResult(FixedAt(file, offset + 4, 1)),
                                if flags % 2 == 1 then Some(FromBits16(FixedAt(file, offset + 6, 2))) else None,
                                if flags / 2 % 2 == 1 then Some(FromBits16(FixedAt(file, offset + 8, 2))) else None))
  }

  predicate MetadataRecordOk(file: seq<byte>, offset: nat)
    requires offset + METADATA_RECORD_SIZE <= |file|
  {
    FixedAt(file, offset, 4) != 0 && FixedAt(file, offset + 4, 1) <= 2 && FixedAt(file, offset + 5, 1) < 4
  }

  function StoredMetadata(file: seq<byte>, offset: nat, n: nat): (records: seq<MetadataRecord>)
    requires offset + METADATA_RECORD_SIZE * n <= |file|
    ensures |records| == n
  {
    seq(n, i requires 0 <= i < n => StoredMetadataRecord(file, offset + METADATA_RECORD_SIZE * i))
  }

  predicate MetadataOk(file: seq<byte>, offset: nat, n: nat)
    requires offset + METADATA_RECORD_SIZE * n <= |file|
  {
    && (forall i :: 0 <= i < n ==> MetadataRecordOk(file, offset + METADATA_RECORD_SIZE * i))
    && (forall i :: 0 <= i < n - 1 ==> StoredMetadata(file, offset, n)[i].id < StoredMetadata(file, offset, n)[i + 1].id)
  }

  function StoredSparseEntry(file: seq<byte>, offset: nat): SparseEntry
    requires offset + SPARSE_RECORD_SIZE <= |file|
  {
    SparseEntry(FixedAt(file, offset, 8), FixedAt(file, offset + 8, 8), FixedAt(file, offset + 16, 4), FixedAt(file, offset + 20, 2))
  }

  function StoredSparse(file: seq<byte>, offset: nat, n: nat): (sparse: seq<SparseEntry>)
    requires offset + SPARSE_RECORD_SIZE * n <= |file|
    ensures |sparse| == n
  {
    seq(n, i requires 0 <= i < n => StoredSparseEntry(file, offset + SPARSE_RECORD_SIZE * i))
  }

  function BlockEnd(e: SparseEntry): nat {
    e.offset + e.length
  }

  function SparseEnd(sparse: seq<SparseEntry>, base: nat): nat {
    if sparse == [] then base else BlockEnd(sparse[|sparse| - 1])
  }

  /** A sparse entry may follow others: its block has an acceptable size, starts where theirs end, and its first hash is larger. */
  predicate SparseFollows(sparse: seq<SparseEntry>, e: SparseEntry, base: nat) {
    && 0 < e.length <= DirectoryBlock.MAX_BLOCK_SIZE
    && 0 < e.count <= DirectoryBlock.MAX_ENTRIES
    && e.offset == SparseEnd(sparse, base)
    && (sparse != [] ==> sparse[|sparse| - 1].firstHash < e.firstHash)
  }

  /** Directory blocks of acceptable size follow each other from the directory's offset, with ascending first hashes. */
  predicate SparseOk(sparse: seq<SparseEntry>, base: nat) {
    sparse == [] || (SparseOk(sparse[..|sparse| - 1], base) && SparseFollows(sparse[..|sparse| - 1], sparse[|sparse| - 1], base))
  }

  function EntryTotal(sparse: seq<SparseEntry>): nat {
    if sparse == [] then 0 else EntryTotal(sparse[..|sparse| - 1]) + sparse[|sparse| - 1].count
  }

  /** The decoded block a sparse entry points to, if it is readable and matches the entry. */
  ghost function BlockAt(file: seq<byte>, e: SparseEntry): Option<seq<Entry>> {
    if BlockEnd(e) > |file| then None
    else match DirectoryBlock.Decode(file[e.offset..BlockEnd(e)])
      case None => None
      case Some(es) => if |es| == e.count && es != [] && es[0].hash == e.firstHash then Some(es) else None
  }

  ghost predicate BlocksOk(file: seq<byte>, sparse: seq<SparseEntry>) {
    forall i :: 0 <= i < |sparse| ==> BlockAt(file, sparse[i]).Some?
  }

  ghost function BlocksAt(file: seq<byte>, sparse: seq<SparseEntry>): (blocks: seq<seq<Entry>>)
    requires BlocksOk(file, sparse)
    ensures |blocks| == |sparse|
    ensures forall i :: 0 <= i < |sparse| ==> blocks[i] == BlockAt(file, sparse[i]).value
  {
    seq(|sparse|, i requires 0 <= i < |sparse| => BlockAt(file, sparse[i]).value)
  }

  function OccurrenceTotal(es: seq<Entry>): nat {
    if es == [] then 0 else OccurrenceTotal(es[..|es| - 1]) + es[|es| - 1].occurrences
  }

  function PostingEnd(es: seq<Entry>, base: nat): nat {
    if es == [] then base else es[|es| - 1].offset + es[|es| - 1].length
  }

  predicate EntryFollows(es: seq<Entry>, e: Entry, base: nat) {
    e.offset == PostingEnd(es, base) && (es != [] ==> es[|es| - 1].hash < e.hash)
  }

  /** Strictly ascending hashes, and posting ranges that follow each other from the base. */
  predicate DirectoryOk(es: seq<Entry>, base: nat) {
    es == [] || (DirectoryOk(es[..|es| - 1], base) && EntryFollows(es[..|es| - 1], es[|es| - 1], base))
  }

  /** Everything open() loads from a file. */
  datatype Index = Index(header: Header, metadata: seq<MetadataRecord>, sparse: seq<SparseEntry>)

  function IndexOf(file: seq<byte>): Index
    requires HeaderOk(file)
  {
    var h := StoredHeader(file);
    Index(h, StoredMetadata(file, h.metadataOffset, h.metadataCount), StoredSparse(file, h.sparseOffset, h.sparseCount))
  }

  ghost function Directory(file: seq<byte>, index: Index): seq<Entry>
    requires BlocksOk(file, index.sparse)
  {
    Concat(BlocksAt(file, index.sparse))
  }

  ghost predicate Acceptable(file: seq<byte>) {
    && HeaderOk(file)
    && var index := IndexOf(file);
      var h := index.header;
      && MetadataOk(file, h.metadataOffset, h.metadataCount)
      && SparseOk(index.sparse, h.directoryOffset)
      && SparseEnd(index.sparse, h.directoryOffset) == h.sparseOffset
      && EntryTotal(index.sparse) == h.hashCount
      && BlocksOk(file, index.sparse)
      && DirectoryOk(Directory(file, index), HEADER_SIZE)
      && PostingEnd(Directory(file, index), HEADER_SIZE) == h.metadataOffset
      && OccurrenceTotal(Directory(file, index)) == h.occurrenceCount
  }
}
