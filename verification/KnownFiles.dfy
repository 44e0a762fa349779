/** Small files of each format, byte for byte: the layouts that other programs see. */
module KnownFiles {
  import opened Words
  import opened SortedRuns
  import opened PostingBlock
  import opened PostingsFile
  import DirectoryBlock
  import Bitmaps
  import Uleb128
  import PrefixPostings
  import opened OpeningStats
  import opened OpeningTreeBytes
  import opened OpeningTreeFile

  /** A small number in eight bytes. */
  function Word(v: byte): (s: seq<byte>)
    ensures |s| == 8
  {
    [v, 0, 0, 0, 0, 0, 0, 0]
  }

  lemma SmallWord(v: byte)
    ensures LittleEndian(v, 8) == Word(v)
    ensures LittleEndian(v, 4) == [v, 0, 0, 0] && LittleEndian(v, 2) == [v, 0]
  {
    assert LittleEndian(0, 1) == [0];
    assert LittleEndian(0, 2) == [0, 0];
    assert LittleEndian(0, 3) == [0, 0, 0];
    assert LittleEndian(0, 4) == [0, 0, 0, 0];
    assert LittleEndian(0, 5) == [0, 0, 0, 0, 0];
    assert LittleEndian(0, 6) == [0, 0, 0, 0, 0, 0];
    assert LittleEndian(0, 7) == [0, 0, 0, 0, 0, 0, 0];
    assert v % 256 == v && v / 256 == 0;
  }

  // A postings artifact.

  /** Game 300 stands at hash 5 after two and four plies, game 7 at another hash at its start. */
  function KnownGroups(): seq<HashGroup> {
    [HashGroup(5, [GameGroup(300, [2, 4])]), HashGroup(0x200_0000_0008, [GameGroup(7, [0])])]
  }

  function KnownMetadata(): (records: seq<MetadataRecord>)
    ensures forall i :: 0 <= i < |records| ==> ValidMetadata(records[i].metadata)
  {
    [MetadataRecord(7, GameMetadata(-1, None, Some(-2))), MetadataRecord(300, GameMetadata(1, Some(2100), None))]
  }

  lemma KnownPostings()
    ensures EncodeGroups(0, KnownGroups()[0].games) == [0xAC, 2, 2, 2, 2]
    ensures EncodeGroups(0, KnownGroups()[1].games) == [7, 1, 0]
    ensures PostingBytes(KnownGroups()) == [0xAC, 2, 2, 2, 2, 7, 1, 0]
  {
    var g, h := KnownGroups()[0].games[0], KnownGroups()[1].games[0];
    assert Uleb128.Encode(300) == [0xAC, 2];
    assert g.plies[1..] == [4] && [4][1..] == [];
    assert EncodePlies(2, [4]) == [2];
    assert EncodeGroup(0, g) == [0xAC, 2, 2, 2, 2];
    assert [g][1..] == [];
    assert h.plies[1..] == [] && [h][1..] == [];
    assert EncodeGroup(0, h) == [7, 1, 0];
    var gs := KnownGroups();
    assert gs[..1] == [gs[0]] && [gs[0]][..0] == [];
    assert PostingBytes([gs[0]]) == [0xAC, 2, 2, 2, 2];
  }

  function KnownEntries(): seq<Entry> {
    [Entry(5, 88, 5, 2, 1, 2, 4), Entry(0x200_0000_0008, 93, 3, 1, 1, 0, 0)]
  }

  lemma KnownOccurrences()
    ensures Occurrences(KnownGroups()[0].games) == [Occurrence(300, 2), Occurrence(300, 4)]
    ensures Occurrences(KnownGroups()[1].games) == [Occurrence(7, 0)]
  {
    var g, h := KnownGroups()[0].games[0], KnownGroups()[1].games[0];
    assert [g][..0] == [] && [h][..0] == [];
    assert GroupOccurrences(g) == [Occurrence(300, 2), Occurrence(300, 4)];
    assert GroupOccurrences(h) == [Occurrence(7, 0)];
  }

  lemma PlyRanges()
    ensures MinPly([Occurrence(300, 2), Occurrence(300, 4)]) == 2 && MaxPly([Occurrence(300, 2), Occurrence(300, 4)]) == 4
    ensures MinPly([Occurrence(7, 0)]) == 0 && MaxPly([Occurrence(7, 0)]) == 0
  {
    assert [Occurrence(300, 2), Occurrence(300, 4)][..1] == [Occurrence(300, 2)];
    assert [Occurrence(300, 2)][..0] == [];
    assert [Occurrence(7, 0)][..0] == [];
  }

  lemma KnownDirectory()
    ensures EntriesOf(KnownGroups()) == KnownEntries()
  {
    hide EncodeGroups, Occurrences, MinPly, MaxPly;
    KnownPostings();
    KnownOccurrences();
    PlyRanges();
    var gs := KnownGroups();
    assert gs[..1] == [gs[0]] && [gs[0]][..0] == [];
    assert PostingBytes([gs[0]]) == [0xAC, 2, 2, 2, 2];
    assert EntriesOf([]) == [] && |PostingBytes([])| == 0;
    assert PostingsFile.EntryOf(gs[0], 88) == KnownEntries()[0];
    assert EntriesOf([gs[0]]) == [KnownEntries()[0]];
    assert PostingsFile.EntryOf(gs[1], 93) == KnownEntries()[1];
  }

  lemma KnownBits()
    ensures Bitmaps.Bitmap([true]) == [1] && Bitmaps.Bitmap([true, false]) == [1]
  {
    assert [true][1..] == [] && [true, false][1..] == [false] && [false][1..] == [];
  }

  /** The hash delta's 40-bit low part, and what is above it. */
  lemma KnownDeltas()
    ensures DirectoryBlock.HashDeltas(KnownEntries()) == [0x200_0000_0003] && DirectoryBlock.HashBits([0x200_0000_0003]) == [true]
    ensures DirectoryBlock.EncodeLows([0x200_0000_0003]) == [3, 0, 0, 0, 0] && DirectoryBlock.EncodeHighs([0x200_0000_0003]) == [2]
    ensures DirectoryBlock.CountBits(KnownEntries()) == [true, false]
  {
    var es, deltas := KnownEntries(), [0x200_0000_0003];
    assert es[1..] == [es[1]] && [es[1]][1..] == [] && deltas[1..] == [];
    assert LittleEndian(0x200_0000_0003, 5) == [3, 0, 0, 0, 0];
  }

  lemma KnownFields()
    ensures DirectoryBlock.EncodeEntries(KnownEntries()) == [5, 1, 2, 2, 4, 3, 1, 0, 0]
  {
    var es := KnownEntries();
    assert DirectoryBlock.EncodeFields(es[0]) == [5, 1, 2, 2, 4];
    assert DirectoryBlock.EncodeFields(es[1]) == [3, 1, 0, 0];
    hide DirectoryBlock.EncodeFields;
    assert es[1..] == [es[1]] && [es[1]][1..] == [];
    assert DirectoryBlock.EncodeEntries([]) == [];
    assert DirectoryBlock.EncodeEntries([es[1]]) == [3, 1, 0, 0];
  }

  function KnownBlockBytes(): seq<byte> {
    Word(5) + Word(88) + [2, 0]      // first hash, first offset, number of entries
    + [1] + [1]                      // which deltas and which counts have an extra field
    + [3, 0, 0, 0, 0] + [2]          // the delta: its low 40 bits, and what is above them
    + [5, 1, 2, 2, 4, 3, 1, 0, 0]    // length, games, occurrences unless as many, and ply range of both entries
  }

  lemma KnownBlock()
    ensures DirectoryBlock.Encode(KnownEntries()) == KnownBlockBytes()
  {
    hide Word, LittleEndian, Bitmaps.Bitmap, DirectoryBlock.HashDeltas, DirectoryBlock.HashBits, DirectoryBlock.CountBits;
    hide DirectoryBlock.EncodeLows, DirectoryBlock.EncodeHighs, DirectoryBlock.EncodeEntries;
    KnownDeltas();
    KnownBits();
    KnownFields();
    SmallWord(5);
    SmallWord(88);
    SmallWord(2);
  }

  function KnownRecordBytes(): seq<byte> {
    [7, 0, 0, 0, 0, 2, 0, 0, 0xFE, 0xFF]       // game 7: Black won, only Black rated, -2
    + [0x2C, 1, 0, 0, 2, 1, 0x34, 8, 0, 0]     // game 300: White won, only White rated, 2100
  }

  lemma KnownWords()
    ensures LittleEndian(0xFFFE, 2) == [0xFE, 0xFF] && LittleEndian(300, 4) == [0x2C, 1, 0, 0] && LittleEndian(2100, 2) == [0x34, 8]
    ensures LittleEndian(0, 1) == [0] && LittleEndian(1, 1) == [1] && LittleEndian(2, 1) == [2]
  {
  }

  lemma KnownRecords()
    ensures EncodeMetadata(KnownMetadata()) == KnownRecordBytes()
  {
    hide LittleEndian;
    var records := KnownMetadata();
    assert records[..1] == [records[0]] && [records[0]][..0] == [];
    SmallWord(7);
    SmallWord(0);
    KnownWords();
    assert EncodeMetadataRecord(records[0]) == [7, 0, 0, 0, 0, 2, 0, 0, 0xFE, 0xFF];
    assert EncodeMetadataRecord(records[1]) == [0x2C, 1, 0, 0, 2, 1, 0x34, 8, 0, 0];
    hide EncodeMetadataRecord;
    assert EncodeMetadata([]) == [];
    assert EncodeMetadata([records[0]]) == [7, 0, 0, 0, 0, 2, 0, 0, 0xFE, 0xFF];
  }

  function KnownHeaderBytes(): seq<byte> {
    [0x4D, 0x4F, 0x54, 0x49, 0x46, 0x50, 0x4F, 0x32] + [6, 0, 0, 0] + [88, 0, 0, 0]  // MOTIFPO2, version, header size
    + (Word(2) + (Word(3) + (Word(2)                                                 // games, occurrences, hashes
    + (Word(96) + (Word(2)                                                           // metadata offset and count
    + (Word(116) + (Word(35)                                                         // directory offset and length
    + (Word(151) + Word(1)))))))))                                                   // sparse directory offset and count
  }

  lemma KnownHeader()
    ensures HeaderOf(KnownGroups(), KnownMetadata(), 2) == Header(2, 3, 2, 96, 2, 116, 35, 151, 1)
    ensures BlocksOf(EntriesOf(KnownGroups())) == [KnownEntries()]
    ensures DirectoryBytes([KnownEntries()]) == KnownBlockBytes()
  {
    hide EntriesOf, DirectoryBlock.Encode, PostingBytes;
    KnownDirectory();
    KnownPostings();
    KnownBlock();
    KnownCount();
    var blocks := [KnownEntries()];
    assert blocks[..0] == [];
    assert DirectoryBytes([]) == [];
    assert DirectoryBytes(blocks) == KnownBlockBytes();
  }

  lemma KnownCount()
    ensures |GroupRecords(KnownGroups())| == 3
  {
    hide Occurrences;
    KnownOccurrences();
    var gs := KnownGroups();
    assert gs[..1] == [gs[0]] && [gs[0]][..0] == [];
    assert |GroupRecords([gs[0]])| == 2;
  }

  lemma KnownHeaderIs()
    ensures PostingsFile.EncodeHeader(Header(2, 3, 2, 96, 2, 116, 35, 151, 1)) == KnownHeaderBytes()
  {
    hide LittleEndian, EncodeWords, Word;
    SmallWord(6);
    SmallWord(88);
    FirstWord([2, 3, 2, 96, 2, 116, 35, 151, 1], [3, 2, 96, 2, 116, 35, 151, 1]);
    FirstWord([3, 2, 96, 2, 116, 35, 151, 1], [2, 96, 2, 116, 35, 151, 1]);
    FirstWord([2, 96, 2, 116, 35, 151, 1], [96, 2, 116, 35, 151, 1]);
    FirstWord([96, 2, 116, 35, 151, 1], [2, 116, 35, 151, 1]);
    FirstWord([2, 116, 35, 151, 1], [116, 35, 151, 1]);
    FirstWord([116, 35, 151, 1], [35, 151, 1]);
    FirstWord([35, 151, 1], [151, 1]);
    FirstWord([151, 1], [1]);
    FirstWord([1], []);
  }

  lemma FirstWord(words: seq<nat>, rest: seq<nat>)
    requires words != [] && words[1..] == rest && words[0] < 256
    ensures EncodeWords(words) == if rest == [] then Word(words[0]) else Word(words[0]) + EncodeWords(rest)
  {
    SmallWord(words[0]);
    assert rest == [] ==> EncodeWords(rest) == [];
  }

  function KnownSparseBytes(): seq<byte> {
    Word(5) + Word(116) + [35, 0, 0, 0] + [2, 0]  // first hash, offset, length, number of entries
  }

  lemma KnownSparse()
    ensures EncodeSparse(SparseOf([KnownEntries()], 116)) == KnownSparseBytes()
  {
    hide Word, LittleEndian, DirectoryBlock.Encode;
    KnownBlock();
    var blocks := [KnownEntries()];
    assert blocks[..0] == [];
    assert SparseOf([], 116) == [] && DirectoryBytes([]) == [];
    var e := SparseEntry(5, 116, 35, 2);
    assert SparseOf(blocks, 116) == [e];
    assert [e][..0] == [] && EncodeSparse([]) == [];
    SmallWord(5);
    SmallWord(116);
    SmallWord(35);
    SmallWord(2);
  }

  /** The whole artifact of those groups. */
  lemma KnownArtifact()
    ensures Artifact(KnownGroups(), KnownMetadata(), 2) ==
      KnownHeaderBytes() + [0xAC, 2, 2, 2, 2, 7, 1, 0] + KnownRecordBytes() + KnownBlockBytes() + KnownSparseBytes()
  {
    hide HeaderOf, PostingsFile.EncodeHeader, PostingBytes, EncodeMetadata, DirectoryBytes, EncodeSparse, SparseOf, EntriesOf, BlocksOf, KnownEntries;
    hide KnownHeaderBytes, KnownRecordBytes, KnownBlockBytes, KnownSparseBytes;
    KnownHeader();
    KnownHeaderIs();
    KnownPostings();
    KnownRecords();
    KnownSparse();
  }

  // An opening tree.

  function KnownContinuation(): Continuation {
    Continuation(0x1234, 10, Agg(0, 1, 0, 0, 1, 2100, 1, 2000, 1, -4100, 4100, 300, 300), 1)
  }

  /** The start position with one continuation, which Black won with ratings of 2000 against 2100. */
  function KnownNodes(): seq<Node> {
    [Node(9, 1, true, [KnownContinuation()])]
  }

  lemma KnownExponent()
    ensures Log2(4100) == 12 && Bitmaps.Pow2(40) == 0x100_0000_0000
  {
    assert Bitmaps.Pow2(5) == 32;
    hide Log2, Bitmaps.Pow2;
    DoublePow(5);
    DoublePow(10);
    DoublePow(20);
    Halved(4100);
    Halved(2050);
    Halved(1025);
    Halved(512);
    Halved(256);
    Halved(128);
    Halved(64);
    Halved(32);
    Halved(16);
    Halved(8);
    Halved(4);
    Halved(2);
    Halved(1);
  }

  lemma Halved(n: nat)
    requires n > 0
    ensures Log2(n) == if n == 1 then 0 else 1 + Log2(n / 2)
  {
  }

  lemma KnownWeights()
    ensures DoubleWord(4100) == 0x40A0_0400_0000_0000 && DoubleWord(-4100) == 0xC0A0_0400_0000_0000
  {
    hide Log2, Bitmaps.Pow2;
    KnownExponent();
    assert Scale(4100, 12) == 4100 * 0x100_0000_0000;
  }

  lemma KnownDoubles()
    ensures LittleEndian(0x40A0_0400_0000_0000, 8) == [0, 0, 0, 0, 0, 4, 0xA0, 0x40]
    ensures LittleEndian(0xC0A0_0400_0000_0000, 8) == [0, 0, 0, 0, 0, 4, 0xA0, 0xC0]
  {
    KnownDouble(0x40);
    KnownDouble(0xC0);
  }

  lemma KnownDouble(last: byte)
    ensures LittleEndian(last * 0x100_0000_0000_0000 + 0xA0_0400_0000_0000, 8) == [0, 0, 0, 0, 0, 4, 0xA0, last]
  {
    assert [last][1..] == [] && [0xA0, last][1..] == [last] && [4, 0xA0, last][1..] == [0xA0, last];
    assert Unsigned([last]) == last;
    assert Unsigned([0xA0, last]) == 0xA0 + 256 * last;
    assert Unsigned([4, 0xA0, last]) == 4 + 256 * (0xA0 + 256 * last);
    PrependZero([4, 0xA0, last]);
    PrependZero([0, 4, 0xA0, last]);
    PrependZero([0, 0, 4, 0xA0, last]);
    PrependZero([0, 0, 0, 4, 0xA0, last]);
    PrependZero([0, 0, 0, 0, 4, 0xA0, last]);
    LittleEndianInvertsUnsigned([0, 0, 0, 0, 0, 4, 0xA0, last]);
  }

  lemma PrependZero(s: seq<byte>)
    ensures Unsigned([0] + s) == 256 * Unsigned(s)
  {
    assert ([0] + s)[1..] == s;
  }

  lemma {:induction false} FieldsSplit(a: seq<Field>, b: seq<Field>, va: seq<nat>, vb: seq<nat>)
    requires |a| == |va| && |b| == |vb|
    ensures EncodeFields(a + b, va + vb) == EncodeFields(a, va) + EncodeFields(b, vb)
  {
    hide EncodeField;
    if a == [] {
      assert a + b == b && va + vb == vb;
    } else {
      FieldsSplit(a[1..], b, va[1..], vb);
      assert (a + b)[1..] == a[1..] + b && (va + vb)[1..] == va[1..] + vb;
      SumsAssociate(EncodeField(a[0], va[0]), EncodeFields(a[1..], va[1..]), EncodeFields(b, vb));
    }
  }

  lemma SumsAssociate(a: seq<byte>, b: seq<byte>, c: seq<byte>)
    ensures a + (b + c) == a + b + c
  {
  }

  lemma FourFields(a: Field, b: Field, c: Field, d: Field, va: nat, vb: nat, vc: nat, vd: nat)
    ensures EncodeFields([a, b, c, d], [va, vb, vc, vd])
         == EncodeField(a, va) + (EncodeField(b, vb) + (EncodeField(c, vc) + EncodeField(d, vd)))
  {
    assert [a, b, c, d][1..] == [b, c, d] && [b, c, d][1..] == [c, d] && [c, d][1..] == [d] && [d][1..] == [];
    assert [va, vb, vc, vd][1..] == [vb, vc, vd] && [vb, vc, vd][1..] == [vc, vd] && [vc, vd][1..] == [vd] && [vd][1..] == [];
    assert EncodeFields([], []) == [];
    assert EncodeField(d, vd) + [] == EncodeField(d, vd);
    assert EncodeFields([d], [vd]) == EncodeField(d, vd);
    assert EncodeFields([c, d], [vc, vd]) == EncodeField(c, vc) + EncodeField(d, vd);
  }

  lemma KnownVarints()
    ensures Uleb128.Encode(2100) == [0xB4, 0x10] && Uleb128.Encode(2000) == [0xD0, 0x0F] && Uleb128.Encode(300) == [0xAC, 2]
    ensures Uleb128.Encode(0) == [0] && Uleb128.Encode(1) == [1]
    ensures LittleEndian(0x1234, 2) == [0x34, 0x12]
  {
    assert Uleb128.Encode(2100) == [0xB4, 0x10];
    assert Uleb128.Encode(2000) == [0xD0, 0x0F];
    assert Uleb128.Encode(300) == [0xAC, 2];
    assert LittleEndian(0x1234, 2) == [0x34, 0x12];
  }

  function KnownContinuationBytes(): seq<byte> {
    ([0x34, 0x12] + (Word(10) + ([0] + [1])))                        // move, child, first ply, frequency
    + ([0] + ([0] + ([1] + [0xB4, 0x10])))                           // White wins, draws, Black wins, sum of White's Elos
    + ([1] + ([0xD0, 0x0F] + ([1] + [0, 0, 0, 0, 0, 4, 0xA0, 0xC0])))  // their number, Black's sum and number, -2050.0
    + ([0, 0, 0, 0, 0, 4, 0xA0, 0x40] + ([0xAC, 2] + ([0xAC, 2] + [1])))  // 2050.0, lowest and greatest id, games at the child
  }

  lemma KnownContinuationIs()
    ensures EncodeContinuation(KnownContinuation()) == KnownContinuationBytes()
  {
    hide EncodeFields, LittleEndian, Uleb128.Encode, DoubleWord, Word;
    KnownWeights();
    KnownDoubles();
    KnownVarints();
    SmallWord(10);
    FourFields(Fixed(2), Fixed(8), Varint, Varint, 0x1234, 10, 0, 1);
    FourFields(Varint, Varint, Varint, Varint, 0, 0, 1, 2100);
    FourFields(Varint, Varint, Varint, Fixed(8), 1, 2000, 1, 0xC0A0_0400_0000_0000);
    FourFields(Fixed(8), Varint, Varint, Varint, 0x40A0_0400_0000_0000, 300, 300, 1);
    KnownLayout();
    assert ContinuationValues(KnownContinuation()) ==
      [0x1234, 10, 0, 1, 0, 0, 1, 2100, 1, 2000, 1, 0xC0A0_0400_0000_0000, 0x40A0_0400_0000_0000, 300, 300, 1];
  }

  lemma KnownLayout()
    ensures EncodeFields(CONTINUATION, [0x1234, 10, 0, 1, 0, 0, 1, 2100, 1, 2000, 1, 0xC0A0_0400_0000_0000, 0x40A0_0400_0000_0000, 300, 300, 1])
         == EncodeFields([Fixed(2), Fixed(8), Varint, Varint], [0x1234, 10, 0, 1])
          + EncodeFields([Varint, Varint, Varint, Varint], [0, 0, 1, 2100])
          + EncodeFields([Varint, Varint, Varint, Fixed(8)], [1, 2000, 1, 0xC0A0_0400_0000_0000])
          + EncodeFields([Fixed(8), Varint, Varint, Varint], [0x40A0_0400_0000_0000, 300, 300, 1])
  {
    hide EncodeFields;
    var a, b := [Fixed(2), Fixed(8), Varint, Varint], [Varint, Varint, Varint, Varint];
    var c, d := [Varint, Varint, Varint, Fixed(8)], [Fixed(8), Varint, Varint, Varint];
    var va, vb, vc, vd := [0x1234, 10, 0, 1], [0, 0, 1, 2100], [1, 2000, 1, 0xC0A0_0400_0000_0000], [0x40A0_0400_0000_0000, 300, 300, 1];
    FieldsSplit(a, b, va, vb);
    FieldsSplit(a + b, c, va + vb, vc);
    FieldsSplit(a + b + c, d, va + vb + vc, vd);
    assert CONTINUATION == a + b + c + d;
    assert [0x1234, 10, 0, 1, 0, 0, 1, 2100, 1, 2000, 1, 0xC0A0_0400_0000_0000, 0x40A0_0400_0000_0000, 300, 300, 1] == va + vb + vc + vd;
  }

  /** The whole tree file, for a depth cap of 20 and one game. */
  lemma KnownTree()
    ensures FileOf(KnownNodes(), 20, 1) ==
      [0x4D, 0x4F, 0x54, 0x49, 0x46, 0x4F, 0x54, 0x31] + ([5, 0, 0, 0] + ([20, 0] + (Word(1) + Word(1))))  // MOTIFOT1, version, cap, games, nodes
      + ((Word(9) + ([1] + ([1] + [1]))) + KnownContinuationBytes())                                           // hash, games, continuations, complete
  {
    hide EncodeFields, LittleEndian, Uleb128.Encode, Word, KnownContinuationBytes, EncodeContinuation, KnownContinuation;
    KnownVarints();
    KnownContinuationIs();
    SmallWord(5);
    SmallWord(20);
    SmallWord(1);
    SmallWord(9);
    FourFields(Fixed(4), Fixed(2), Fixed(8), Fixed(8), 5, 20, 1, 1);
    FourFields(Fixed(8), Varint, Varint, Varint, 9, 1, 1, 1);
    var node := KnownNodes()[0];
    assert node.continuations[..0] == [] && KnownNodes()[..0] == [];
    assert EncodeContinuations([]) == [] && EncodeNodes([]) == [];
    assert EncodeContinuations(node.continuations) == KnownContinuationBytes();
    assert EncodeNode(node) == (Word(9) + ([1] + ([1] + [1]))) + KnownContinuationBytes();
    assert EncodeNodes(KnownNodes()) == (Word(9) + ([1] + ([1] + [1]))) + KnownContinuationBytes();
    assert OpeningTreeFile.EncodeHeader(20, 1, 1) ==
      [0x4D, 0x4F, 0x54, 0x49, 0x46, 0x4F, 0x54, 0x31] + ([5, 0, 0, 0] + ([20, 0] + (Word(1) + Word(1))));
  }

  // A prefix sidecar.

  /** One prefix bit: game 300 in the first bucket, games 7 and 9 in the second. */
  function KnownSidecar(): seq<Triple> {
    [Triple(0, 300, 0), Triple(1, 7, 0), Triple(1, 9, 0)]
  }

  lemma KnownOffsets()
    ensures PrefixPostings.Offsets(KnownSidecar(), 2) == [0, 1, 3]
  {
    hide PrefixPostings.CountBelow;
    forall b: nat
      ensures PrefixPostings.CountBelow(KnownSidecar(), b) == if b == 0 then 0 else if b == 1 then 1 else 3
    {
      PrefixPostings.NothingBelow(b);
      PrefixPostings.BelowAppends([], Triple(0, 300, 0), b);
      PrefixPostings.BelowAppends([Triple(0, 300, 0)], Triple(1, 7, 0), b);
      PrefixPostings.BelowAppends([Triple(0, 300, 0), Triple(1, 7, 0)], Triple(1, 9, 0), b);
      assert [] + [Triple(0, 300, 0)] == [Triple(0, 300, 0)];
      assert [Triple(0, 300, 0)] + [Triple(1, 7, 0)] == [Triple(0, 300, 0), Triple(1, 7, 0)];
      assert [Triple(0, 300, 0), Triple(1, 7, 0)] + [Triple(1, 9, 0)] == KnownSidecar();
    }
  }

  lemma {:induction false} ValueAppends(values: seq<nat>, v: nat, width: nat)
    ensures PrefixPostings.EncodeAll(values + [v], width) == PrefixPostings.EncodeAll(values, width) + LittleEndian(v, width)
    ensures PrefixPostings.EncodeAll([], width) == []
  {
    assert (values + [v])[..|values|] == values;
  }

  /** The whole sidecar file. */
  lemma KnownSidecarFile()
    ensures PrefixPostings.FileBytes(1, KnownSidecar()) ==
      ([0x4D, 0x4F, 0x54, 0x49, 0x46, 0x50, 0x50, 0x31] + [1, 0, 0, 0] + [1] + [0] + [0, 0] + Word(2) + Word(3))  // MOTIFPP1, version, bits, buckets, ids
      + ([] + Word(0) + Word(1) + Word(3))                                                                          // offsets
      + ([] + [0x2C, 1, 0, 0] + [7, 0, 0, 0] + [9, 0, 0, 0])                                                        // ids
  {
    hide LittleEndian, Word, PrefixPostings.EncodeAll, PrefixPostings.Offsets;
    KnownOffsets();
    KnownWords();
    SmallWord(0);
    SmallWord(1);
    SmallWord(2);
    SmallWord(3);
    SmallWord(7);
    SmallWord(9);
    ValueAppends([], 0, 8);
    ValueAppends([0], 1, 8);
    ValueAppends([0, 1], 3, 8);
    ValueAppends([], 300, 4);
    ValueAppends([300], 7, 4);
    ValueAppends([300, 7], 9, 4);
    assert Bitmaps.Pow2(1) == 2;
    assert PrefixPostings.Ids(KnownSidecar()) == [300, 7] + [9];
    assert [] + [0] == [0] && [0] + [1] == [0, 1] && [0, 1] + [3] == [0, 1, 3];
    assert [] + [300] == [300] && [300] + [7] == [300, 7];
  }
}
