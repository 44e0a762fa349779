/** Reading a postings artifact: full validation on open, and the two-level directory search. */
module PostingsReader {
  import opened Words
  import opened PostingBlock
  import opened PostingsFile
  import DirectoryBlock

  method ReadHeader(file: seq<byte>) returns (r: Option<Header>)
    requires |file| <= U64_MAX
    ensures r.Some? <==> HeaderOk(file)
    ensures r.Some? ==> r.value == StoredHeader(file)
  {
    hide FixedAt;
    if |file| < HEADER_SIZE {
      return None;
    }
    var version := ReadFixed(file, 8, 4);
    var size := ReadFixed(file, 12, 4);
    if file[..8] != MAGIC || version != Some(FORMAT_VERSION) || size != Some(HEADER_SIZE) {
      return None;
    }
    var gameCount := ReadFixed(file, 16, 8);
    var occurrenceCount := ReadFixed(file, 24, 8);
    var hashCount := ReadFixed(file, 32, 8);
    var metadataOffset := ReadFixed(file, 40, 8);
    var metadataCount := ReadFixed(file, 48, 8);
    var directoryOffset := ReadFixed(file, 56, 8);
    var directoryLength := ReadFixed(file, 64, 8);
    var sparseOffset := ReadFixed(file, 72, 8);
    var sparseCount := ReadFixed(file, 80, 8);
    WordCapacities();
    var h := Header(gameCount.value, occurrenceCount.value, hashCount.value, metadataOffset.value, metadataCount.value,
                    directoryOffset.value, directoryLength.value, sparseOffset.value, sparseCount.value);
    if h.metadataCount != h.gameCount || h.metadataOffset < HEADER_SIZE
       || METADATA_RECORD_SIZE * h.metadataCount > U64_MAX
       || h.metadataOffset + METADATA_RECORD_SIZE * h.metadataCount != h.directoryOffset
       || h.directoryOffset + h.directoryLength != h.sparseOffset
       || SPARSE_RECORD_SIZE * h.sparseCount > U64_MAX
       || h.sparseOffset + SPARSE_RECORD_SIZE * h.sparseCount != |file|
       || h.metadataOffset > STREAM_MAX || h.sparseOffset > STREAM_MAX
    {
      return None;
    }
    return Some(h);
  }

  method ReadMetadataRecord(file: seq<byte>, offset: nat) returns (r: Option<MetadataRecord>)
    requires offset + METADATA_RECORD_SIZE <= |file|
    ensures r.Some? <==> MetadataRecordOk(file, offset)
    ensures r.Some? ==> r.value == StoredMetadataRecord(file, offset)
  {
    hide FixedAt;
    var id := ReadFixed(file, offset, 4);
    var result := ReadFixed(file, offset + 4, 1);
    var flags := ReadFixed(file, offset + 5, 1);
    var white := ReadFixed(file, offset + 6, 2);
    var black := ReadFixed(file, offset + 8, 2);
    // any flag bit besides the two Elo flags is rejected
    if id.value == 0 || result.value > 2 || flags.value >= 4 {
      return None;
    }
    return Some(MetadataRecord(id.value,
                               GameMetadata(DecodeResult(result.value),
                                            if flags.value % 2 == 1 then Some(FromBits16(white.value)) else None,
                                            if flags.value / 2 % 2 == 1 then Some(FromBits16(black.value)) else None)));
  }

  method ReadMetadata(file: seq<byte>, offset: nat, n: nat) returns (r: Option<seq<MetadataRecord>>)
    requires offset + METADATA_RECORD_SIZE * n <= |file|
    ensures r.Some? <==> MetadataOk(file, offset, n)
    ensures r.Some? ==> r.value == StoredMetadata(file, offset, n)
  {
    hide MetadataRecordOk, StoredMetadataRecord;
    var records: seq<MetadataRecord> := [];
    for index := 0 to n
      invariant |records| == index
      invariant forall i :: 0 <= i < index ==>
        records[i] == StoredMetadata(file, offset, n)[i] && MetadataRecordOk(file, offset + METADATA_RECORD_SIZE * i)
      invariant forall i :: 0 <= i < index - 1 ==> records[i].id < records[i + 1].id
    {
      var record := ReadMetadataRecord(file, offset + METADATA_RECORD_SIZE * index);
      if record.None? {
        return None;
      }
      assert record.value == StoredMetadata(file, offset, n)[index];
      if index > 0 && records[index - 1].id >= record.value.id {
        assert StoredMetadata(file, offset, n)[index - 1].id >= StoredMetadata(file, offset, n)[index - 1 + 1].id;
        return None;
      }
      records := records + [record.value];
    }
    return Some(records);
  }

  method ReadSparseEntry(file: seq<byte>, offset: nat) returns (e: SparseEntry)
    requires offset + SPARSE_RECORD_SIZE <= |file|
    ensures e == StoredSparseEntry(file, offset)
  {
    hide FixedAt;
    var hash := ReadFixed(file, offset, 8);
    var at := ReadFixed(file, offset + 8, 8);
    var length := ReadFixed(file, offset + 16, 4);
    var count := ReadFixed(file, offset + 20, 2);
    return SparseEntry(hash.value, at.value, length.value, count.value);
  }

  lemma {:induction false} SparsePrefix(sparse: seq<SparseEntry>, base: nat, k: nat)
    requires k <= |sparse| && SparseOk(sparse, base)
    ensures SparseOk(sparse[..k], base)
    decreases |sparse|
  {
    if k < |sparse| {
      SparsePrefix(sparse[..|sparse| - 1], base, k);
      assert sparse[..|sparse| - 1][..k] == sparse[..k];
    } else {
      assert sparse[..k] == sparse;
    }
  }

  /** The sparse directory, with its blocks ending at `end` and holding `total` entries. */
  method ReadSparse(file: seq<byte>, offset: nat, n: nat, base: nat, end: nat, total: nat) returns (r: Option<seq<SparseEntry>>)
    requires offset + SPARSE_RECORD_SIZE * n <= |file| && end <= STREAM_MAX && total <= U64_MAX
    ensures
      var sparse := StoredSparse(file, offset, n);
      && (r.Some? <==> SparseOk(sparse, base) && SparseEnd(sparse, base) == end && EntryTotal(sparse) == total)
      && (r.Some? ==> r.value == sparse)
  {
    hide StoredSparseEntry;
    ghost var all := StoredSparse(file, offset, n);
    var sparse: seq<SparseEntry> := [];
    var expected, entries: nat := base, 0;
    for index := 0 to n
      invariant sparse == all[..index] && SparseOk(sparse, base)
      invariant expected == SparseEnd(sparse, base) && entries == EntryTotal(sparse)
    {
      var e := ReadSparseEntry(file, offset + SPARSE_RECORD_SIZE * index);
      assert e == all[index] && all[..index + 1][..index] == sparse && all[..index + 1] == sparse + [e];
      if e.length == 0 || e.length > DirectoryBlock.MAX_BLOCK_SIZE || e.count == 0 || e.count > DirectoryBlock.MAX_ENTRIES
         || e.offset != expected || (index > 0 && sparse[index - 1].firstHash >= e.firstHash)
      {
        if SparseOk(all, base) {
          SparsePrefix(all, base, index + 1);
          assert false;
        }
        return None;
      }
      sparse := sparse + [e];
      expected := expected + e.length;
      entries := entries + e.count;
    }
    assert all[..n] == all;
    if expected != end || entries != total {
      return None;
    }
    return Some(sparse);
  }

  lemma {:induction false} DirectoryPrefix(es: seq<Entry>, base: nat, k: nat)
    requires k <= |es| && DirectoryOk(es, base)
    ensures DirectoryOk(es[..k], base)
    decreases |es|
  {
    if k < |es| {
      DirectoryPrefix(es[..|es| - 1], base, k);
      assert es[..|es| - 1][..k] == es[..k];
    } else {
      assert es[..k] == es;
    }
  }

  lemma {:induction false} ConcatPrefix<T>(blocks: seq<seq<T>>, i: nat, j: nat)
    requires i < |blocks| && j <= |blocks[i]|
    ensures Concat(blocks[..i]) + blocks[i][..j] <= Concat(blocks)
    decreases |blocks|
  {
    var n := |blocks| - 1;
    if i < n {
      ConcatPrefix(blocks[..n], i, j);
      assert blocks[..n][..i] == blocks[..i];
    }
  }

  /** Reads and decodes the directory block a sparse entry points to. */
  method ReadBlock(file: seq<byte>, e: SparseEntry) returns (r: Result<seq<Entry>>)
    requires BlockEnd(e) <= |file|
    ensures r == match DirectoryBlock.Decode(file[e.offset..BlockEnd(e)]) case None => Err(SchemaMismatch) case Some(es) => Ok(es)
  {
    r := DirectoryBlock.DecodeBlock(file[e.offset..BlockEnd(e)]);
  }

  /** What the directory pass carries from entry to entry. */
  datatype Scan = Scan(expected: nat, total: nat, havePrevious: bool, previousHash: nat)

  predicate Tracks(scan: Scan, seen: seq<Entry>) {
    && scan.expected == PostingEnd(seen, HEADER_SIZE) && scan.total == OccurrenceTotal(seen)
    && scan.havePrevious == (seen != []) && (scan.havePrevious ==> scan.previousHash == seen[|seen| - 1].hash)
  }

  lemma ScanStep(scan: Scan, seen: seq<Entry>, entry: Entry)
    requires Tracks(scan, seen) && DirectoryOk(seen, HEADER_SIZE)
    ensures
      var more, ordered := seen + [entry], !(scan.havePrevious && scan.previousHash >= entry.hash) && entry.offset == scan.expected;
      && DirectoryOk(more, HEADER_SIZE) == ordered
      && Tracks(Scan(entry.offset + entry.length, scan.total + entry.occurrences, true, entry.hash), more)
  {
    assert (seen + [entry])[..|seen|] == seen;
  }

  /** The entries of one decoded block, after those already seen. */
  method ScanBlock(es: seq<Entry>, start: Scan, ghost before: seq<Entry>) returns (r: Option<Scan>)
    requires Tracks(start, before) && DirectoryOk(before, HEADER_SIZE)
    ensures r.Some? <==> DirectoryOk(before + es, HEADER_SIZE)
    ensures r.Some? ==> Tracks(r.value, before + es)
  {
    hide DirectoryOk, Tracks;
    var scan := start;
    assert before + es[..0] == before;
    for j := 0 to |es|
      invariant Tracks(scan, before + es[..j]) && DirectoryOk(before + es[..j], HEADER_SIZE)
    {
      var entry := es[j];
      ScanStep(scan, before + es[..j], entry);
      assert before + es[..j] + [entry] == before + es[..j + 1];
      if (scan.havePrevious && scan.previousHash >= entry.hash) || entry.offset != scan.expected {
        PrefixRejects(before + es, HEADER_SIZE, |before| + j + 1);
        assert (before + es)[..|before| + j + 1] == before + es[..j + 1];
        return None;
      }
      scan := Scan(scan.expected + entry.length, scan.total + entry.occurrences, true, entry.hash);
    }
    assert es[..|es|] == es;
    return Some(scan);
  }

  lemma PrefixRejects(es: seq<Entry>, base: nat, k: nat)
    requires k <= |es|
    ensures !DirectoryOk(es[..k], base) ==> !DirectoryOk(es, base)
  {
    hide DirectoryOk;
    if DirectoryOk(es, base) {
      DirectoryPrefix(es, base, k);
    }
  }

  ghost predicate BlocksRead(file: seq<byte>, sparse: seq<SparseEntry>, blocks: seq<seq<Entry>>) {
    |blocks| <= |sparse| && forall i :: 0 <= i < |blocks| ==> BlockAt(file, sparse[i]) == Some(blocks[i])
  }

  lemma BlockRead(file: seq<byte>, sparse: seq<SparseEntry>, blocks: seq<seq<Entry>>, es: seq<Entry>)
    requires BlocksRead(file, sparse, blocks) && |blocks| < |sparse| && BlockAt(file, sparse[|blocks|]) == Some(es)
    ensures BlocksRead(file, sparse, blocks + [es])
  {
    hide BlockAt;
  }

  lemma AllRead(file: seq<byte>, sparse: seq<SparseEntry>, blocks: seq<seq<Entry>>)
    requires BlocksRead(file, sparse, blocks) && |blocks| == |sparse|
    ensures BlocksOk(file, sparse) && BlocksAt(file, sparse) == blocks
  {
    hide BlockAt;
  }

  /** A block that breaks the directory after the blocks before it breaks the whole directory. */
  lemma BlockRejects(file: seq<byte>, sparse: seq<SparseEntry>, blocks: seq<seq<Entry>>, es: seq<Entry>)
    requires BlocksOk(file, sparse) && BlocksRead(file, sparse, blocks) && |blocks| < |sparse|
    requires BlockAt(file, sparse[|blocks|]) == Some(es) && !DirectoryOk(Concat(blocks) + es, HEADER_SIZE)
    ensures !DirectoryOk(Concat(BlocksAt(file, sparse)), HEADER_SIZE)
  {
    hide DirectoryOk, BlockAt, BlocksOk, Concat;
    var all, k := BlocksAt(file, sparse), |blocks|;
    assert all[..k] == blocks && all[k] == es && es[..|es|] == es;
    ConcatPrefix(all, k, |es|);
    var seen := Concat(blocks) + es;
    assert Concat(all)[..|seen|] == seen;
    PrefixRejects(Concat(all), HEADER_SIZE, |seen|);
  }

  /** The directory pass of open(): every block decodes, and all entries together tile the posting section. */
  method CheckDirectory(file: seq<byte>, sparse: seq<SparseEntry>, postingEnd: nat, occurrences: nat) returns (ok: bool)
    requires forall i :: 0 <= i < |sparse| ==> BlockEnd(sparse[i]) <= |file|
    requires postingEnd <= STREAM_MAX && occurrences <= U64_MAX
    ensures ok <==>
      && BlocksOk(file, sparse)
      && var es := Concat(BlocksAt(file, sparse));
        DirectoryOk(es, HEADER_SIZE) && PostingEnd(es, HEADER_SIZE) == postingEnd && OccurrenceTotal(es) == occurrences
  {
    hide DirectoryOk, OccurrenceTotal, DirectoryBlock.Decode, Concat, BlocksRead;
    ghost var blocks: seq<seq<Entry>> := [];
    NothingScanned(file, sparse);
    var scan := Scan(HEADER_SIZE, 0, false, 0);
    for index := 0 to |sparse|
      invariant |blocks| == index && BlocksRead(file, sparse, blocks)
      invariant DirectoryOk(Concat(blocks), HEADER_SIZE) && Tracks(scan, Concat(blocks))
    {
      var decoded := ReadBlock(file, sparse[index]);
      if decoded.Err? || |decoded.value| != sparse[index].count || |decoded.value| == 0
         || decoded.value[0].hash != sparse[index].firstHash
      {
        assert BlockAt(file, sparse[index]).None?;
        return false;
      }
      var es := decoded.value;
      assert BlockAt(file, sparse[index]) == Some(es);
      BlockRead(file, sparse, blocks, es);
      var next := ScanBlock(es, scan, Concat(blocks));
      if next.None? {
        if BlocksOk(file, sparse) {
          BlockRejects(file, sparse, blocks, es);
        }
        return false;
      }
      ConcatAppends(blocks, es);
      scan, blocks := next.value, blocks + [es];
    }
    AllRead(file, sparse, blocks);
    return scan.expected == postingEnd && scan.total == occurrences;
  }

  lemma NothingScanned(file: seq<byte>, sparse: seq<SparseEntry>)
    ensures BlocksRead(file, sparse, [])
    ensures DirectoryOk(Concat([]), HEADER_SIZE) && Tracks(Scan(HEADER_SIZE, 0, false, 0), Concat([]))
  {
  }

  lemma {:induction false} BlockEndsBound(sparse: seq<SparseEntry>, base: nat, i: nat)
    requires SparseOk(sparse, base) && i < |sparse|
    ensures base <= sparse[i].offset && BlockEnd(sparse[i]) <= SparseEnd(sparse, base)
    decreases |sparse|
  {
    var n := |sparse| - 1;
    if i < n {
      BlockEndsBound(sparse[..n], base, i);
    } else if n > 0 {
      BlockEndsBound(sparse[..n], base, n - 1);
    }
  }

  /** open(): validates every section before trusting any count. */
  method Open(file: seq<byte>) returns (r: Result<Index>)
    ensures r.Ok? <==> Acceptable(file)
    ensures r.Ok? ==> r.value == IndexOf(file)
    ensures r.Err? ==> r.error == SchemaMismatch
  {
    hide MetadataOk, SparseOk, BlocksOk, DirectoryOk, OccurrenceTotal, EntryTotal, StoredHeader, StoredMetadata, StoredSparse, Concat;
    if |file| > U64_MAX {
      return Err(SchemaMismatch);
    }
    var header := ReadHeader(file);
    if header.None? {
      return Err(SchemaMismatch);
    }
    var h := header.value;
    HeaderBounds(file);
    var metadata := ReadMetadata(file, h.metadataOffset, h.metadataCount);
    if metadata.None? {
      return Err(SchemaMismatch);
    }
    var sparse := ReadSparse(file, h.sparseOffset, h.sparseCount, h.directoryOffset, h.sparseOffset, h.hashCount);
    if sparse.None? {
      return Err(SchemaMismatch);
    }
    forall i | 0 <= i < |sparse.value|
      ensures BlockEnd(sparse.value[i]) <= |file|
    {
      BlockEndsBound(sparse.value, h.directoryOffset, i);
    }
    var ok := CheckDirectory(file, sparse.value, h.metadataOffset, h.occurrenceCount);
    if !ok {
      return Err(SchemaMismatch);
    }
    return Ok(Index(h, metadata.value, sparse.value));
  }

  lemma HeaderBounds(file: seq<byte>)
    requires HeaderOk(file)
    ensures
      var h := StoredHeader(file);
      && h.metadataOffset + METADATA_RECORD_SIZE * h.metadataCount <= |file| && h.sparseOffset + SPARSE_RECORD_SIZE * h.sparseCount <= |file|
      && h.metadataOffset <= STREAM_MAX && h.sparseOffset <= STREAM_MAX
      && h.hashCount <= U64_MAX && h.occurrenceCount <= U64_MAX && h.gameCount <= U64_MAX
  {
    DirectoryBlock.FixedIsBounded(file, 16, 8);
    DirectoryBlock.FixedIsBounded(file, 24, 8);
    DirectoryBlock.FixedIsBounded(file, 32, 8);
  }
}
