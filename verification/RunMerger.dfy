/** The streaming half of the merge: strictly ascending records in, posting blocks and compressed directory blocks out. */
module RunMerger {
  import opened Words
  import opened SortedRuns
  import opened PostingBlock
  import opened PostingOrder
  import opened PostingsFile
  import opened BufferedWriter
  import DirectoryBlock
  import DirectoryWriter
  import PostingsArtifact
  import Uleb128

  function Zeros(n: nat): seq<byte> {
    seq(n, _ => 0)
  }

  /** The artifact's bytes up to the active hash. */
  function Written(done: seq<HashGroup>): (s: seq<byte>)
    ensures |s| == HEADER_SIZE + |PostingBytes(done)|
  {
    Zeros(HEADER_SIZE) + PostingBytes(done)
  }

  /** The blocks written and the entries pending make up the directory so far. */
  predicate Filed(blocks: seq<seq<Entry>>, pending: seq<Entry>, done: seq<HashGroup>) {
    Concat(blocks) + pending == EntriesOf(done)
  }

  predicate FullBlocks(blocks: seq<seq<Entry>>) {
    forall i :: 0 <= i < |blocks| ==> |blocks[i]| == DirectoryBlock.MAX_ENTRIES
  }

  /** The accumulation state of the posting block being streamed. */
  datatype ActiveHash = ActiveHash(hash: nat, offset: nat, occurrenceCount: nat, gameCount: nat, minPly: nat, maxPly: nat,
                                   haveGame: bool, gameId: nat, plies: seq<nat>, haveFlushed: bool, previousId: nat)

  /** The groups of the active hash: those written and the one being collected. */
  function Groups(a: ActiveHash, games: seq<GameGroup>): seq<GameGroup> {
    if a.haveGame then games + [GameGroup(a.gameId, a.plies)] else games
  }

  predicate ActiveOk(a: ActiveHash, games: seq<GameGroup>) {
    var groups := Groups(a, games);
    && a.hash <= U64_MAX && ValidGroups(0, groups)
    && (a.haveFlushed <==> games != []) && a.previousId == LastId(0, games)
    && a.occurrenceCount == |Occurrences(groups)| && a.gameCount == |groups|
    && (groups != [] ==> Spans(a.minPly, a.maxPly, Occurrences(groups)))
    && (a.haveGame ==> a.plies != [])
  }

  function ActiveRecords(a: ActiveHash, games: seq<GameGroup>): seq<Triple> {
    HashRecords(HashGroup(a.hash, Groups(a, games)))
  }

  function FreshHash(hash: nat, offset: nat, ply: nat): ActiveHash {
    ActiveHash(hash, offset, 0, 0, ply, ply, false, 0, [], false, 0)
  }

  function WithGame(a: ActiveHash, id: nat, ply: nat): ActiveHash {
    a.(haveGame := true, gameId := id, gameCount := a.gameCount + 1, plies := [ply],
       minPly := Min(a.minPly, ply), maxPly := Max(a.maxPly, ply), occurrenceCount := a.occurrenceCount + 1)
  }

  function WithPly(a: ActiveHash, ply: nat): ActiveHash {
    a.(plies := a.plies + [ply], minPly := Min(a.minPly, ply), maxPly := Max(a.maxPly, ply), occurrenceCount := a.occurrenceCount + 1)
  }

  function WithGameFlushed(a: ActiveHash): ActiveHash {
    a.(haveFlushed := true, previousId := a.gameId, haveGame := false, plies := [])
  }

  lemma FreshHashOk(hash: nat, offset: nat, ply: nat)
    requires hash <= U64_MAX
    ensures ActiveOk(FreshHash(hash, offset, ply), []) && ActiveRecords(FreshHash(hash, offset, ply), []) == []
  {
  }

  lemma WithGameOk(a: ActiveHash, games: seq<GameGroup>, id: nat, ply: nat)
    requires ActiveOk(a, games) && !a.haveGame && LastId(0, games) < id <= U32_MAX && ply <= U16_MAX
    requires games == [] ==> a.minPly == a.maxPly == ply
    ensures ActiveOk(WithGame(a, id, ply), games)
    ensures ActiveRecords(WithGame(a, id, ply), games) == ActiveRecords(a, games) + [Triple(a.hash, id, ply)]
  {
    hide ValidGroups, Occurrences, Spans;
    var g := GameGroup(id, [ply]);
    GroupsAppend(0, games, g);
    assert [ply][1..] == [];
    assert Occurrences(games + [g]) == Occurrences(games) + [Occurrence(id, ply)];
    NothingOccurs();
    SpanStarts(a.minPly, a.maxPly, Occurrences(games), Occurrence(id, ply), games);
  }

  lemma WithPlyOk(a: ActiveHash, games: seq<GameGroup>, ply: nat)
    requires ActiveOk(a, games) && a.haveGame && a.plies[|a.plies| - 1] < ply <= U16_MAX
    ensures ActiveOk(WithPly(a, ply), games)
    ensures ActiveRecords(WithPly(a, ply), games) == ActiveRecords(a, games) + [Triple(a.hash, a.gameId, ply)]
  {
    hide ValidGroups, Occurrences, Spans, RisingFrom;
    PlyAdded(games, a.gameId, a.plies, ply);
    SpanStarts(a.minPly, a.maxPly, Occurrences(Groups(a, games)), Occurrence(a.gameId, ply), Groups(a, games));
  }

  lemma WithGameFlushedOk(a: ActiveHash, games: seq<GameGroup>)
    requires ActiveOk(a, games) && a.haveGame
    ensures ActiveOk(WithGameFlushed(a), games + [GameGroup(a.gameId, a.plies)])
    ensures ActiveRecords(WithGameFlushed(a), games + [GameGroup(a.gameId, a.plies)]) == ActiveRecords(a, games)
  {
    hide ValidGroups, Occurrences, Spans;
  }

  lemma PlyAdded(games: seq<GameGroup>, id: nat, plies: seq<nat>, ply: nat)
    requires plies != [] && ValidGroups(0, games + [GameGroup(id, plies)]) && plies[|plies| - 1] < ply <= U16_MAX
    ensures ValidGroups(0, games + [GameGroup(id, plies + [ply])])
    ensures Occurrences(games + [GameGroup(id, plies + [ply])]) == Occurrences(games + [GameGroup(id, plies)]) + [Occurrence(id, ply)]
  {
    hide ValidGroups, Occurrences, RisingFrom, EncodeGroups, EncodePlies, GroupOccurrences;
    GroupsAppend(0, games, GameGroup(id, plies));
    GroupsAppend(0, games, GameGroup(id, plies + [ply]));
    PliesAppend(plies[0], plies[1..], ply);
    assert (plies + [ply])[1..] == plies[1..] + [ply];
    GroupGrows(id, plies, ply);
  }

  /** The ply range after one more occurrence; the first one may start from any range that is just its ply. */
  lemma SpanStarts(minPly: nat, maxPly: nat, s: seq<Occurrence>, o: Occurrence, groups: seq<GameGroup>)
    requires o.ply <= U16_MAX && (groups == [] ==> s == [])
    requires if groups == [] then minPly == maxPly == o.ply else Spans(minPly, maxPly, s)
    ensures Spans(Min(minPly, o.ply), Max(maxPly, o.ply), s + [o])
  {
    assert (s + [o])[..|s|] == s;
  }

  class Merger {
    const writer: BufferedFileWriter  // the artifact under construction
    const dirspool: BufferedFileWriter  // its directory section

    var pending: seq<Entry>
    var sparse: seq<SparseEntry>  // offsets relative to the directory spool
    var haveActiveHash: bool
    var active: ActiveHash
    var distinctHashCount: nat
    var totalOccurrences: nat

    ghost var done: seq<HashGroup>  // hash groups written completely
    ghost var games: seq<GameGroup>  // game groups of the active hash written completely
    ghost var blocks: seq<seq<Entry>>  // directory blocks written

    ghost predicate Valid()
      reads this, writer, dirspool
    {
      Consistent() && |pending| < DirectoryBlock.MAX_ENTRIES
    }

    ghost predicate Consistent()
      reads this, writer, dirspool
    {
      && writer != dirspool && writer.Valid() && dirspool.Valid()
      && ValidHashGroups(done)
      && DirectoryValid()
      && writer.Contents() == Written(done) + EncodeGroups(0, games)
      && (if haveActiveHash then
            && ActiveOk(active, games)
            && (done != [] ==> done[|done| - 1].hash < active.hash)
            && active.offset == |Written(done)|
          else games == [])
      && totalOccurrences == |GroupRecords(done)| + if haveActiveHash then active.occurrenceCount else 0
    }

    ghost predicate DirectoryValid()
      reads this, dirspool
    {
      && FullBlocks(blocks)
      && Filed(blocks, pending, done)
      && dirspool.Contents() == DirectoryBytes(blocks)
      && sparse == SparseOf(blocks, 0)
      && distinctHashCount == |done|
    }

    /** The records received so far. */
    ghost function Emitted(): seq<Triple>
      reads this
    {
      GroupRecords(done) + if haveActiveHash then ActiveRecords(active, games) else []
    }

    constructor ()
      ensures Ready() && fresh(writer) && fresh(dirspool)
      ensures Emitted() == [] && !haveActiveHash
    {
      writer := new BufferedFileWriter();
      dirspool := new BufferedFileWriter();
      pending, sparse := [], [];
      haveActiveHash, active := false, FreshHash(0, 0, 0);
      distinctHashCount, totalOccurrences := 0, 0;
      done, games, blocks := [], [], [];
      new;
      hide PostingBytes, EncodeGroups, EntriesOf, DirectoryBytes, SparseOf, Concat, GroupRecords, Occurrences, ValidHashGroups;
      hide ValidGroups, BufferedFileWriter.Contents, BufferedFileWriter.Valid;
      // a placeholder header, patched once every section has been written
      for index := 0 to HEADER_SIZE
        invariant writer.Valid() && writer.Contents() == Zeros(index)
        modifies writer
      {
        writer.PutByte(0);
      }
      NothingMerged();
      assert Filed([], [], []);
      assert Written([]) + [] == Zeros(HEADER_SIZE);
    }

    /** flush_game_group: writes the active game's delta, ply count, first ply and ply deltas. */
    method FlushGameGroup()
      requires Consistent() && haveActiveHash
      modifies writer, `games, `active
      ensures Consistent() && !active.haveGame
      ensures games == Groups(old(active), old(games)) && active.hash == old(active.hash)
      ensures ActiveRecords(active, games) == old(ActiveRecords(active, games))
      ensures !old(active.haveGame) ==> active == old(active)
      ensures old(active.haveGame) ==> games != [] && LastId(0, games) == old(active.gameId)
    {
      hide BufferedFileWriter.Contents, BufferedFileWriter.Valid, PostingBytes, EncodeGroups, GroupRecords, SparseOf, DirectoryBytes;
      hide ActiveRecords, FullBlocks, Filed, Written, ValidHashGroups, ActiveOk, EncodeGroup, Uleb128.Encode, EncodePlies, LastId;
      if !active.haveGame {
        return;
      }
      ghost var g := GameGroup(active.gameId, active.plies);
      FlushedGroup(active, games);
      var delta := if active.haveFlushed then active.gameId - active.previousId else active.gameId;
      ghost var before := writer.Contents();
      WriteGroup(writer, delta, active.plies);
      GroupAppended(Written(done), before, games, g);
      WithGameFlushedOk(active, games);
      games := games + [g];
      active := WithGameFlushed(active);
    }

    /** flush_directory_block: writes the pending entries as one compressed block. */
    method FlushDirectoryBlock()
      requires dirspool.Valid() && dirspool.Contents() == DirectoryBytes(blocks)
      requires FullBlocks(blocks) && sparse == SparseOf(blocks, 0)
      requires forall i :: 0 <= i < |pending| - 1 ==> pending[i].hash < pending[i + 1].hash
      modifies dirspool, `pending, `sparse, `blocks
      ensures dirspool.Valid() && dirspool.Contents() == DirectoryBytes(blocks)
      ensures pending == []
      ensures blocks == old(blocks) + if old(pending) == [] then [] else [old(pending)]
      ensures (forall i :: 0 <= i < |blocks| ==> blocks[i] != []) && sparse == SparseOf(blocks, 0)
    {
      hide BufferedFileWriter.Contents, DirectoryBlock.Encode, DirectoryBytes, SparseOf;
      if pending == [] {
        assert blocks + [] == blocks;
        return;
      }
      var blockStart := dirspool.offset;
      OffsetIsLength(dirspool);
      DirectoryWriter.WriteBlock(dirspool, pending);
      OffsetIsLength(dirspool);
      BlockAdded(blocks, pending);
      sparse := sparse + [SparseEntry(pending[0].hash, blockStart, dirspool.offset - blockStart, |pending|)];
      blocks := blocks + [pending];
      pending := [];
    }

    /** The directory entry of the active hash, once its last game group is written. */
    method ActiveEntry() returns (entry: Entry)
      requires Consistent() && haveActiveHash && !active.haveGame && games != []
      ensures entry == EntryOf(HashGroup(active.hash, games), |Written(done)|)
      ensures ValidHashGroup(HashGroup(active.hash, games))
    {
      hide BufferedFileWriter.Contents, EncodeGroups, ValidGroups, Occurrences, MinPly, MaxPly, Written, ValidHashGroups, GroupRecords;
      OffsetIsLength(writer);
      entry := Entry(active.hash, active.offset, writer.offset - active.offset, active.occurrenceCount, active.gameCount,
                     active.minPly, active.maxPly);
    }

    /** flush_hash: closes the active hash and files its directory entry. */
    method FlushHash()
      requires Valid() && (haveActiveHash ==> Groups(active, games) != [])
      modifies this, writer, dirspool
      ensures Valid() && !haveActiveHash
      ensures Emitted() == old(Emitted())
      ensures old(haveActiveHash) ==> done != [] && done[|done| - 1].hash == old(active.hash)
      ensures !old(haveActiveHash) ==> done == old(done)
    {
      hide BufferedFileWriter.Contents, BufferedFileWriter.Valid, PostingBytes, EncodeGroups, GroupRecords, SparseOf, DirectoryBytes;
      hide ActiveRecords, FullBlocks, Filed, Written, ValidHashGroups, ValidHashGroup, EntryOf, Concat, Groups, ActiveOk;
      if !haveActiveHash {
        return;
      }
      FlushGameGroup();
      FileHash();
      PendingAscends(done, blocks, pending);
      if |pending| == DirectoryBlock.MAX_ENTRIES {
        BlockFiled(blocks, pending, done);
        FlushDirectoryBlock();
      }
    }

    method FileHash()
      requires Valid() && haveActiveHash && !active.haveGame && games != []
      modifies `done, `games, `pending, `haveActiveHash, `distinctHashCount
      ensures Consistent() && !haveActiveHash
      ensures Emitted() == old(Emitted())
      ensures done == old(done) + [HashGroup(active.hash, old(games))]
      ensures |pending| == old(|pending|) + 1
    {
      hide BufferedFileWriter.Contents, BufferedFileWriter.Valid, PostingBytes, EncodeGroups, GroupRecords, SparseOf, DirectoryBytes;
      hide FullBlocks, Filed, Written, ValidHashGroups, ValidHashGroup, EntryOf, HashRecords, Occurrences, Spans, ValidGroups;
      ghost var group := HashGroup(active.hash, games);
      var entry := ActiveEntry();
      HashAppends(blocks, pending, done, group);
      pending := pending + [entry];
      done, games := done + [group], [];
      distinctHashCount := distinctHashCount + 1;
      haveActiveHash := false;
    }

    /** Between records: the active hash, if any, has an active game. */
    ghost predicate Ready()
      reads this, writer, dirspool
    {
      && Valid()
      && (haveActiveHash ==> active.haveGame && active.plies != [])
      && (!haveActiveHash ==> done == [])
    }

    ghost function LastRecord(): Triple
      requires active.plies != []
      reads this
    {
      Triple(active.hash, active.gameId, active.plies[|active.plies| - 1])
    }

    /** The body of the merge loop for a record that differs from its predecessor. */
    method Accept(record: Triple)
      requires Ready() && (haveActiveHash ==> Less(LastRecord(), record))
      requires record.first <= U64_MAX && 0 < record.second <= U32_MAX && record.third <= U16_MAX
      modifies this, writer, dirspool
      ensures Ready() && haveActiveHash && active.plies != [] && LastRecord() == record
      ensures Emitted() == old(Emitted()) + [record]
    {
      hide BufferedFileWriter.Contents, BufferedFileWriter.Valid, PostingBytes, EncodeGroups, GroupRecords, SparseOf, DirectoryBytes;
      hide ActiveRecords, FullBlocks, Filed, Written, ValidHashGroups, ActiveOk;
      if !haveActiveHash || record.first != active.hash {
        FlushHash();
        StartHash(record.first, record.third);
      }
      if !active.haveGame || record.second != active.gameId {
        FlushGameGroup();
        StartGame(record.second, record.third);
      } else {
        AddPly(record.third);
      }
    }

    method StartHash(hash: nat, ply: nat)
      requires Valid() && !haveActiveHash
      requires hash <= U64_MAX && (done != [] ==> done[|done| - 1].hash < hash)
      modifies `haveActiveHash, `active
      ensures Valid() && haveActiveHash && active.hash == hash && !active.haveGame && games == []
      ensures active.minPly == active.maxPly == ply
      ensures Emitted() == old(Emitted())
    {
      hide BufferedFileWriter.Contents, BufferedFileWriter.Valid, PostingBytes, GroupRecords, SparseOf, DirectoryBytes;
      hide ActiveRecords, FullBlocks, Filed, Written, ValidHashGroups, ActiveOk;
      OffsetIsLength(writer);
      NothingMerged();
      FreshHashOk(hash, writer.offset, ply);
      haveActiveHash := true;
      active := FreshHash(hash, writer.offset, ply);
    }

    method StartGame(id: nat, ply: nat)
      requires Valid() && haveActiveHash && !active.haveGame
      requires LastId(0, games) < id <= U32_MAX && ply <= U16_MAX
      requires games == [] ==> active.minPly == active.maxPly == ply
      modifies `active, `totalOccurrences
      ensures Valid() && haveActiveHash && active.haveGame && active.plies != [] && LastRecord() == Triple(old(active.hash), id, ply)
      ensures Emitted() == old(Emitted()) + [Triple(old(active.hash), id, ply)]
    {
      hide BufferedFileWriter.Contents, BufferedFileWriter.Valid, PostingBytes, EncodeGroups, GroupRecords, SparseOf, DirectoryBytes;
      hide ActiveRecords, FullBlocks, Filed, Written, ValidHashGroups, ActiveOk;
      WithGameOk(active, games, id, ply);
      active := WithGame(active, id, ply);
      totalOccurrences := totalOccurrences + 1;
    }

    method AddPly(ply: nat)
      requires Valid() && haveActiveHash && active.haveGame && active.plies != []
      requires active.plies[|active.plies| - 1] < ply <= U16_MAX
      modifies `active, `totalOccurrences
      ensures Valid() && haveActiveHash && active.haveGame && active.plies != []
      ensures LastRecord() == Triple(old(active.hash), old(active.gameId), ply)
      ensures Emitted() == old(Emitted()) + [Triple(old(active.hash), old(active.gameId), ply)]
    {
      hide BufferedFileWriter.Contents, BufferedFileWriter.Valid, PostingBytes, EncodeGroups, GroupRecords, SparseOf, DirectoryBytes;
      hide ActiveRecords, FullBlocks, Filed, Written, ValidHashGroups, ActiveOk;
      WithPlyOk(active, games, ply);
      active := WithPly(active, ply);
      totalOccurrences := totalOccurrences + 1;
    }

    /** The end of the stream: every group and directory block is written. */
    method Finish()
      requires Ready()
      modifies this, writer, dirspool
      ensures writer != dirspool && writer.Valid() && dirspool.Valid()
      ensures ValidHashGroups(done) && GroupRecords(done) == old(Emitted())
      ensures writer.Contents() == Written(done)
      ensures blocks == BlocksOf(EntriesOf(done)) && forall i :: 0 <= i < |blocks| ==> blocks[i] != []
      ensures dirspool.Contents() == DirectoryBytes(blocks) && sparse == SparseOf(blocks, 0)
      ensures distinctHashCount == |done| && totalOccurrences == |GroupRecords(done)|
    {
      hide BufferedFileWriter.Contents, BufferedFileWriter.Valid, PostingBytes, GroupRecords, SparseOf, DirectoryBytes;
      hide ActiveRecords, Filed, Written, ValidHashGroups, ActiveOk, EntriesOf, BlocksOf;
      FlushHash();
      PendingAscends(done, blocks, pending);
      ChunksAreBlocks(blocks, pending, done);
      assert GroupRecords(done) + [] == GroupRecords(done);
      assert writer.Contents() + [] == writer.Contents();
      FlushDirectoryBlock();
    }
  }

  method WriteGroup(writer: BufferedFileWriter, delta: nat, plies: seq<nat>)
    requires writer.Valid() && plies != []
    requires forall i :: 0 < i < |plies| ==> plies[i - 1] < plies[i]
    modifies writer
    ensures writer.Valid()
    ensures writer.Contents() == old(writer.Contents()) + (Uleb128.Encode(delta) + Uleb128.Encode(|plies|) + Uleb128.Encode(plies[0])
                                                           + EncodePlies(plies[0], plies[1..]))
  {
    hide Uleb128.Encode, EncodePlies, BufferedFileWriter.Contents, BufferedFileWriter.Valid;
    ghost var before := writer.Contents();
    writer.WriteUleb128(delta);
    writer.WriteUleb128(|plies|);
    writer.WriteUleb128(plies[0]);
    ghost var head := Uleb128.Encode(delta) + Uleb128.Encode(|plies|) + Uleb128.Encode(plies[0]);
    assert writer.Contents() == before + (head + []);
    NoPlies(plies);
    for index := 1 to |plies|
      invariant writer.Valid()
      invariant writer.Contents() == before + (head + EncodePlies(plies[0], plies[1..index]))
    {
      PliesAppend(plies[0], plies[1..index], plies[index]);
      assert plies[1..index] + [plies[index]] == plies[1..index + 1];
      assert LastPly(plies[0], plies[1..index]) == plies[index - 1];
      writer.WriteUleb128(plies[index] - plies[index - 1]);
      assert before + (head + EncodePlies(plies[0], plies[1..index])) + Uleb128.Encode(plies[index] - plies[index - 1])
          == before + (head + (EncodePlies(plies[0], plies[1..index]) + Uleb128.Encode(plies[index] - plies[index - 1])));
    }
    assert plies[1..|plies|] == plies[1..];
  }

  lemma GroupPliesRise(g: GameGroup)
    requires ValidGroup(g)
    ensures forall i :: 0 < i < |g.plies| ==> g.plies[i - 1] < g.plies[i]
  {
    PliesRise(g.plies[0], g.plies[1..]);
    forall i | 0 < i < |g.plies|
      ensures g.plies[i - 1] < g.plies[i]
    {
      assert g.plies[i] == g.plies[1..][i - 1];
      assert i > 1 ==> g.plies[i - 1] == g.plies[1..][i - 2];
    }
  }

  lemma BlockAdded(blocks: seq<seq<Entry>>, block: seq<Entry>)
    requires block != [] && forall i :: 0 <= i < |blocks| ==> blocks[i] != []
    ensures DirectoryBytes(blocks + [block]) == DirectoryBytes(blocks) + DirectoryBlock.Encode(block)
    ensures SparseOf(blocks + [block], 0)
      == SparseOf(blocks, 0) + [SparseEntry(block[0].hash, |DirectoryBytes(blocks)|, |DirectoryBlock.Encode(block)|, |block|)]
  {
    hide DirectoryBlock.Encode;
    assert (blocks + [block])[..|blocks|] == blocks;
  }

  /** What flush_game_group writes for the group being collected. */
  lemma FlushedGroup(a: ActiveHash, games: seq<GameGroup>)
    requires ActiveOk(a, games) && a.haveGame
    ensures a.plies != [] && forall i :: 0 < i < |a.plies| ==> a.plies[i - 1] < a.plies[i]
    ensures a.haveFlushed ==> a.previousId <= a.gameId
    ensures
      var g := GameGroup(a.gameId, a.plies);
      var delta := if a.haveFlushed then a.gameId - a.previousId else a.gameId;
      && LastId(0, games + [g]) == a.gameId
      && EncodeGroup(LastId(0, games), g)
         == Uleb128.Encode(delta) + Uleb128.Encode(|a.plies|) + Uleb128.Encode(a.plies[0]) + EncodePlies(a.plies[0], a.plies[1..])
  {
    hide ValidGroups, Occurrences, Spans, Uleb128.Encode, EncodePlies;
    var g := GameGroup(a.gameId, a.plies);
    GroupsAppend(0, games, g);
    GroupPliesRise(g);
  }

  lemma NoPlies(plies: seq<nat>)
    requires plies != []
    ensures EncodePlies(plies[0], plies[1..1]) == []
  {
  }

  lemma NothingMerged()
    ensures GroupRecords([]) == [] && PostingBytes([]) == [] && EntriesOf([]) == [] && ValidHashGroups([])
    ensures DirectoryBytes([]) == [] && SparseOf([], 0) == [] && Concat<Entry>([]) == []
    ensures EncodeGroups(0, []) == []
  {
  }

  lemma GroupAppended(base: seq<byte>, before: seq<byte>, games: seq<GameGroup>, g: GameGroup)
    requires before == base + EncodeGroups(0, games)
    ensures before + EncodeGroup(LastId(0, games), g) == base + EncodeGroups(0, games + [g])
  {
    hide EncodeGroups, EncodeGroup;
    GroupsAppend(0, games, g);
  }

  lemma OffsetIsLength(w: BufferedFileWriter)
    requires w.Valid()
    ensures w.offset == |w.Contents()|
  {
  }

  lemma HashAppends(blocks: seq<seq<Entry>>, pending: seq<Entry>, gs: seq<HashGroup>, g: HashGroup)
    requires ValidHashGroups(gs) && ValidHashGroup(g) && (gs != [] ==> gs[|gs| - 1].hash < g.hash)
    requires Filed(blocks, pending, gs)
    ensures ValidHashGroups(gs + [g])
    ensures Filed(blocks, pending + [EntryOf(g, |Written(gs)|)], gs + [g])
    ensures Written(gs) + EncodeGroups(0, g.games) == Written(gs + [g]) + EncodeGroups(0, [])
    ensures GroupRecords(gs + [g]) + [] == GroupRecords(gs) + HashRecords(g)
    ensures |GroupRecords(gs + [g])| == |GroupRecords(gs)| + |Occurrences(g.games)|
  {
    HashAppended(gs, g);
    hide EntryOf, HashRecords, ValidHashGroup, EntriesOf, PostingBytes, GroupRecords;
    assert EncodeGroups(0, []) == [];
    hide EncodeGroups;
  }

  lemma HashAppended(gs: seq<HashGroup>, g: HashGroup)
    ensures EntriesOf(gs + [g]) == EntriesOf(gs) + [EntryOf(g, |Written(gs)|)]
    ensures PostingBytes(gs + [g]) == PostingBytes(gs) + EncodeGroups(0, g.games)
    ensures GroupRecords(gs + [g]) == GroupRecords(gs) + HashRecords(g)
  {
    hide EntryOf, HashRecords, EncodeGroups;
    assert (gs + [g])[..|gs|] == gs;
  }

  /** The pending entries continue the directory, so their hashes ascend. */
  lemma PendingAscends(gs: seq<HashGroup>, written: seq<seq<Entry>>, pending: seq<Entry>)
    requires ValidHashGroups(gs) && Filed(written, pending, gs)
    ensures forall i :: 0 <= i < |pending| - 1 ==> pending[i].hash < pending[i + 1].hash
  {
    hide EntriesOf, ValidHashGroup;
    forall i | 0 <= i < |pending| - 1
      ensures pending[i].hash < pending[i + 1].hash
    {
      var k := |Concat(written)| + i;
      PostingsArtifact.EntryHashAt(gs, k);
      PostingsArtifact.EntryHashAt(gs, k + 1);
      assert (Concat(written) + pending)[k] == pending[i] && (Concat(written) + pending)[k + 1] == pending[i + 1];
    }
  }

  lemma BlockFiled(blocks: seq<seq<Entry>>, pending: seq<Entry>, done: seq<HashGroup>)
    requires FullBlocks(blocks) && |pending| == DirectoryBlock.MAX_ENTRIES && Filed(blocks, pending, done)
    ensures FullBlocks(blocks + [pending]) && Filed(blocks + [pending], [], done)
  {
    ConcatAppends(blocks, pending);
  }

  /** Full blocks with a shorter last one are the blocks of their concatenation. */
  lemma ChunksAreBlocks(blocks: seq<seq<Entry>>, pending: seq<Entry>, done: seq<HashGroup>)
    requires FullBlocks(blocks) && |pending| < DirectoryBlock.MAX_ENTRIES && Filed(blocks, pending, done)
    ensures BlocksOf(EntriesOf(done)) == blocks + if pending == [] then [] else [pending]
  {
    BlocksOfChunks(blocks, pending);
  }

  lemma {:induction false} BlocksOfChunks(blocks: seq<seq<Entry>>, pending: seq<Entry>)
    requires FullBlocks(blocks) && |pending| < DirectoryBlock.MAX_ENTRIES
    ensures BlocksOf(Concat(blocks) + pending) == blocks + if pending == [] then [] else [pending]
  {
    var n := DirectoryBlock.MAX_ENTRIES;
    if blocks == [] {
      assert Concat(blocks) + pending == pending;
    } else {
      var rest := blocks[1..];
      BlocksOfChunks(rest, pending);
      assert [blocks[0]] + rest == blocks;
      ConcatCons(blocks[0], rest);
      var es, tail := Concat(blocks) + pending, Concat(rest) + pending;
      assert es == blocks[0] + tail;
      assert es[..n] == blocks[0] && es[n..] == tail;
      if tail == [] {
        assert es == blocks[0] && BlocksOf(tail) == [];
      }
      assert BlocksOf(es) == [blocks[0]] + BlocksOf(tail);
    }
  }
}
