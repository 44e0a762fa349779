/** The tail of a merge: metadata, the spooled directory, the sparse directory and the patched header. */
module ArtifactAssembly {
  import opened Words
  import opened PostingBlock
  import opened PostingsFile
  import opened BufferedWriter
  import RunMerger

  method WriteMetadataRecord(writer: BufferedFileWriter, r: MetadataRecord)
    requires writer.Valid() && ValidMetadata(r.metadata)
    modifies writer
    ensures writer.Valid() && writer.Contents() == old(writer.Contents()) + EncodeMetadataRecord(r)
  {
    hide LittleEndian, BufferedFileWriter.Contents, BufferedFileWriter.Valid;
    var flags: nat := 0;
    if r.metadata.whiteElo.Some? {
      flags := flags + 1;
    }
    if r.metadata.blackElo.Some? {
      flags := flags + 2;
    }
    writer.WriteFixed(r.id, 4);
    writer.WriteFixed(EncodeResult(r.metadata.result), 1);
    writer.WriteFixed(flags, 1);
    writer.WriteFixed(EloBits(r.metadata.whiteElo), 2);
    writer.WriteFixed(EloBits(r.metadata.blackElo), 2);
    assert writer.Contents() == old(writer.Contents()) + EncodeMetadataRecord(r);
  }

  method WriteMetadata(writer: BufferedFileWriter, records: seq<MetadataRecord>)
    requires writer.Valid() && forall i :: 0 <= i < |records| ==> ValidMetadata(records[i].metadata)
    modifies writer
    ensures writer.Valid() && writer.Contents() == old(writer.Contents()) + EncodeMetadata(records)
  {
    hide EncodeMetadataRecord, BufferedFileWriter.Contents, BufferedFileWriter.Valid;
    ghost var before := writer.Contents();
    assert before + [] == before;
    for k := 0 to |records|
      invariant writer.Valid() && writer.Contents() == before + EncodeMetadata(records[..k])
    {
      assert records[..k + 1][..k] == records[..k];
      WriteMetadataRecord(writer, records[k]);
      assert before + (EncodeMetadata(records[..k]) + EncodeMetadataRecord(records[k]))
          == before + EncodeMetadata(records[..k]) + EncodeMetadataRecord(records[k]);
    }
    assert records[..|records|] == records;
  }

  method WriteSparseEntry(writer: BufferedFileWriter, e: SparseEntry)
    requires writer.Valid()
    modifies writer
    ensures writer.Valid() && writer.Contents() == old(writer.Contents()) + EncodeSparseEntry(e)
  {
    hide LittleEndian, BufferedFileWriter.Contents, BufferedFileWriter.Valid;
    writer.WriteFixed(e.firstHash, 8);
    writer.WriteFixed(e.offset, 8);
    writer.WriteFixed(e.length, 4);
    writer.WriteFixed(e.count, 2);
    assert writer.Contents() == old(writer.Contents()) + EncodeSparseEntry(e);
  }

  /** A sparse entry with its spool offset made absolute. */
  function Shifted(e: SparseEntry, base: nat): SparseEntry {
    e.(offset := base + e.offset)
  }

  lemma {:induction false} SparseShifts(blocks: seq<seq<Entry>>, base: nat, i: nat)
    requires i < |blocks| && forall k :: 0 <= k < |blocks| ==> blocks[k] != []
    ensures SparseOf(blocks, base)[i] == Shifted(SparseOf(blocks, 0)[i], base)
  {
    hide DirectoryBytes;
    if i < |blocks| - 1 {
      SparseShifts(blocks[..|blocks| - 1], base, i);
    }
  }

  method WriteSparse(writer: BufferedFileWriter, sparse: seq<SparseEntry>, base: nat, ghost blocks: seq<seq<Entry>>)
    requires writer.Valid() && (forall k :: 0 <= k < |blocks| ==> blocks[k] != []) && sparse == SparseOf(blocks, 0)
    modifies writer
    ensures writer.Valid() && writer.Contents() == old(writer.Contents()) + EncodeSparse(SparseOf(blocks, base))
  {
    hide EncodeSparseEntry, SparseOf, BufferedFileWriter.Contents, BufferedFileWriter.Valid;
    ghost var before, all := writer.Contents(), SparseOf(blocks, base);
    assert before + [] == before;
    for k := 0 to |sparse|
      invariant writer.Valid() && writer.Contents() == before + EncodeSparse(all[..k])
    {
      assert all[..k + 1][..k] == all[..k];
      SparseShifts(blocks, base, k);
      WriteSparseEntry(writer, Shifted(sparse[k], base));
      assert before + (EncodeSparse(all[..k]) + EncodeSparseEntry(all[k])) == before + EncodeSparse(all[..k]) + EncodeSparseEntry(all[k]);
    }
    assert all[..|all|] == all;
  }

  method WriteHeader(h: Header) returns (bytes: seq<byte>)
    ensures bytes == EncodeHeader(h)
  {
    hide LittleEndian, BufferedFileWriter.Contents, BufferedFileWriter.Valid, EncodeWords;
    var writer := new BufferedFileWriter();
    for k := 0 to |MAGIC|
      invariant writer.Valid() && writer.Contents() == MAGIC[..k]
    {
      writer.PutByte(MAGIC[k]);
      assert MAGIC[..k + 1] == MAGIC[..k] + [MAGIC[k]];
    }
    assert MAGIC[..|MAGIC|] == MAGIC;
    writer.WriteFixed(FORMAT_VERSION, 4);
    writer.WriteFixed(HEADER_SIZE, 4);
    var words := HeaderWords(h);
    ghost var head := MAGIC + LittleEndian(FORMAT_VERSION, 4) + LittleEndian(HEADER_SIZE, 4);
    for k := 0 to |words|
      invariant writer.Valid() && writer.Contents() + EncodeWords(words[k..]) == head + EncodeWords(words)
    {
      ghost var before := writer.Contents();
      FirstWord(words, k);
      writer.WriteFixed(words[k], 8);
      assert before + LittleEndian(words[k], 8) + EncodeWords(words[k + 1..]) == before + (LittleEndian(words[k], 8) + EncodeWords(words[k + 1..]));
    }
    NoWords(words);
    assert writer.Contents() + [] == writer.Contents();
    writer.Flush();
    FlushedIsContents(writer);
    return writer.stream;
  }

  lemma FirstWord(words: seq<nat>, k: nat)
    requires k < |words|
    ensures EncodeWords(words[k..]) == LittleEndian(words[k], 8) + EncodeWords(words[k + 1..])
  {
    hide LittleEndian;
    assert words[k..][1..] == words[k + 1..];
  }

  lemma NoWords(words: seq<nat>)
    ensures EncodeWords(words[|words|..]) == []
  {
  }

  lemma FlushedIsContents(writer: BufferedFileWriter)
    requires writer.buffer == []
    ensures writer.stream == writer.Contents()
  {
  }

  /** Everything merge_runs writes after the last posting block. */
  method Assemble(merger: RunMerger.Merger, records: seq<MetadataRecord>, indexedGames: nat) returns (file: seq<byte>)
    requires merger.writer != merger.dirspool && merger.writer.Valid() && merger.dirspool.Valid()
    requires forall i :: 0 <= i < |records| ==> ValidMetadata(records[i].metadata)
    requires merger.writer.Contents() == RunMerger.Written(merger.done)
    requires merger.blocks == BlocksOf(EntriesOf(merger.done)) && forall i :: 0 <= i < |merger.blocks| ==> merger.blocks[i] != []
    requires merger.dirspool.Contents() == DirectoryBytes(merger.blocks) && merger.sparse == SparseOf(merger.blocks, 0)
    requires merger.distinctHashCount == |merger.done| && merger.totalOccurrences == |GroupRecords(merger.done)|
    modifies merger.writer, merger.dirspool
    ensures file == Artifact(merger.done, records, indexedGames)
  {
    hide BufferedFileWriter.Contents, BufferedFileWriter.Valid, BlocksOf, EntriesOf, DirectoryBytes, SparseOf, PostingBytes, GroupRecords;
    hide EncodeMetadata, EncodeSparse, EncodeHeader;
    var writer, dirspool := merger.writer, merger.dirspool;
    RunMerger.OffsetIsLength(writer);
    var metadataOffset := writer.offset;
    WriteMetadata(writer, records);
    RunMerger.OffsetIsLength(writer);
    var directoryOffset := writer.offset;
    writer.Flush();
    dirspool.Flush();
    FlushedIsContents(dirspool);
    RunMerger.OffsetIsLength(dirspool);
    var directoryLength := dirspool.offset;
    if directoryLength > 0 {
      writer.CopyThrough(dirspool.stream);
    } else {
      assert writer.Contents() + [] == writer.Contents();
    }
    RunMerger.OffsetIsLength(writer);
    var sparseOffset := writer.offset;
    WriteSparse(writer, merger.sparse, directoryOffset, merger.blocks);
    writer.Flush();
    FlushedIsContents(writer);
    var header := Header(indexedGames, merger.totalOccurrences, merger.distinctHashCount, metadataOffset, |records|, directoryOffset,
                         directoryLength, sparseOffset, |merger.sparse|);
    var bytes := WriteHeader(header);
    Patch(merger.done, EncodeMetadata(records), DirectoryBytes(merger.blocks), EncodeSparse(SparseOf(merger.blocks, directoryOffset)), bytes);
    file := bytes + writer.stream[HEADER_SIZE..];
  }

  /** Overwriting the placeholder turns what was written into the artifact. */
  lemma Patch(done: seq<HashGroup>, metadata: seq<byte>, directory: seq<byte>, sparse: seq<byte>, header: seq<byte>)
    requires |header| == HEADER_SIZE
    ensures
      var written := RunMerger.Written(done) + metadata + directory + sparse;
      |written| >= HEADER_SIZE && header + written[HEADER_SIZE..] == header + PostingBytes(done) + metadata + directory + sparse
  {
    hide PostingBytes;
    var zeros, postings := RunMerger.Zeros(HEADER_SIZE), PostingBytes(done);
    var rest := postings + metadata + directory + sparse;
    assert zeros + postings + metadata + directory + sparse == zeros + rest;
    assert (zeros + rest)[|zeros|..] == rest;
    assert header + rest == header + postings + metadata + directory + sparse;
  }
}
