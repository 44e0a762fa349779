/** The exact postings index: buffered rows, sorted spills, a k-way merge into one artifact, and its reader. */
module PositionPostings {
  import opened Words
  import opened SortedRuns
  import opened PostingBlock
  import opened PostingsFile
  import opened PostingsArtifact
  import opened PostingsReader
  import opened PostingsLookup
  import opened PostingsAnswers
  import opened ArtifactSize
  import BufferedWriter
  import RunMerger
  import ArtifactAssembly

  /** position_row, without the encoded move that the index does not store. */
  datatype Row = Row(hash: nat, game: nat, ply: nat, result: int, whiteElo: Option<int>, blackElo: Option<int>)

  /** The widths of a row's fields. */
  predicate RowFits(r: Row) {
    && r.hash <= U64_MAX && r.game <= U32_MAX && r.ply <= U16_MAX
    && (r.whiteElo.Some? ==> IsInt16(r.whiteElo.value))
    && (r.blackElo.Some? ==> IsInt16(r.blackElo.value))
  }

  function MetadataOfRow(r: Row): GameMetadata {
    GameMetadata(r.result, r.whiteElo, r.blackElo)
  }

  function RecordOf(r: Row): Triple {
    Triple(r.hash, r.game, r.ply)
  }

  function RowRecords(rows: seq<Row>): (s: seq<Triple>)
    ensures |s| == |rows|
  {
    seq(|rows|, i requires 0 <= i < |rows| => RecordOf(rows[i]))
  }

  /** A row append() takes: a game, a result code, and no conflict with what is known about the game. */
  predicate RowOk(m: map<nat, GameMetadata>, r: Row) {
    r.game != 0 && -1 <= r.result <= 1 && (r.game in m ==> m[r.game] == MetadataOfRow(r))
  }

  function Learned(m: map<nat, GameMetadata>, rows: seq<Row>): map<nat, GameMetadata> {
    if rows == [] then m else Learned(m, rows[..|rows| - 1])[rows[|rows| - 1].game := MetadataOfRow(rows[|rows| - 1])]
  }

  predicate AllRowsOk(m: map<nat, GameMetadata>, rows: seq<Row>) {
    rows == [] || (AllRowsOk(m, rows[..|rows| - 1]) && RowOk(Learned(m, rows[..|rows| - 1]), rows[|rows| - 1]))
  }

  lemma {:induction false} LearnedGames(m: map<nat, GameMetadata>, rows: seq<Row>, id: nat)
    ensures id in Learned(m, rows) <==> id in m || exists i :: 0 <= i < |rows| && rows[i].game == id
  {
    if rows != [] {
      var n := |rows| - 1;
      LearnedGames(m, rows[..n], id);
      if i :| 0 <= i < |rows| && rows[i].game == id {
        assert i < n ==> rows[..n][i].game == id;
      }
      if i :| 0 <= i < n && rows[..n][i].game == id {
        assert rows[i].game == id;
      }
    }
  }

  lemma {:induction false} LearnedMetadata(m: map<nat, GameMetadata>, rows: seq<Row>, id: nat)
    requires AllRowsOk(m, rows) && id in Learned(m, rows)
    ensures id in m ==> Learned(m, rows)[id] == m[id]
    ensures forall i :: 0 <= i < |rows| && rows[i].game == id ==> Learned(m, rows)[id] == MetadataOfRow(rows[i])
  {
    if rows != [] {
      var front := rows[..|rows| - 1];
      LearnedGames(m, front, id);
      if id in Learned(m, front) {
        LearnedMetadata(m, front, id);
      }
      forall i | 0 <= i < |rows| && rows[i].game == id
        ensures Learned(m, rows)[id] == MetadataOfRow(rows[i])
      {
        if i < |rows| - 1 {
          assert front[i].game == id;
        }
      }
    }
  }

  predicate NoConflicts(rows: seq<Row>) {
    forall i, j :: 0 <= i < j < |rows| && rows[i].game == rows[j].game ==> MetadataOfRow(rows[i]) == MetadataOfRow(rows[j])
  }

  /** What a single scan decides is a symmetric property of the rows: no conflict with the table or with each other. */
  lemma {:induction false} RowsOkMeans(m: map<nat, GameMetadata>, rows: seq<Row>)
    ensures AllRowsOk(m, rows) <==> NoConflicts(rows) && forall i :: 0 <= i < |rows| ==> RowOk(m, rows[i])
  {
    if rows != [] {
      hide AllRowsOk, Learned;
      var n := |rows| - 1;
      var front, last := rows[..n], rows[n];
      RowsOkMeans(m, front);
      RowsOkSplit(m, rows);
      LearnedGames(m, front, last.game);
      if AllRowsOk(m, front) && last.game in Learned(m, front) {
        LearnedMetadata(m, front, last.game);
      }
      forall i | 0 <= i < n
        ensures rows[i] == front[i]
      {
      }
      if NoConflicts(rows) && RowOk(m, last) && AllRowsOk(m, front) && last.game in Learned(m, front) && last.game !in m {
        var i :| 0 <= i < |front| && front[i].game == last.game;
        assert MetadataOfRow(rows[i]) == MetadataOfRow(rows[n]);
      }
      if AllRowsOk(m, front) && RowOk(Learned(m, front), last) && last.game in m {
        assert RowOk(m, last);
      }
    }
  }

  lemma RowsOkSplit(m: map<nat, GameMetadata>, rows: seq<Row>)
    requires rows != []
    ensures AllRowsOk(m, rows) <==> AllRowsOk(m, rows[..|rows| - 1]) && RowOk(Learned(m, rows[..|rows| - 1]), rows[|rows| - 1])
  {
  }

  /** A buffered record: its widths fit, and its game is in the metadata table. */
  predicate RecordOk(t: Triple, m: map<nat, GameMetadata>) {
    t.first <= U64_MAX && 0 < t.second <= U32_MAX && t.third <= U16_MAX && t.second in m
  }

  ghost predicate RowsKnown(rows: set<Triple>, m: map<nat, GameMetadata>) {
    forall t :: t in rows ==> RecordOk(t, m)
  }

  lemma RowTaken(rows: set<Triple>, m: map<nat, GameMetadata>, row: Row)
    requires RowsKnown(rows, m) && ValidMetadataMap(m) && RowFits(row) && RowOk(m, row)
    ensures
      var m' := m[row.game := MetadataOfRow(row)];
      RowsKnown(rows + {RecordOf(row)}, m') && ValidMetadataMap(m')
  {
  }

  lemma TableIsSmall(m: map<nat, GameMetadata>)
    requires ValidMetadataMap(m)
    ensures |m| <= U32_MAX
  {
    MetadataListValid(m);
    MetadataIsSmall(MetadataList(m));
  }

  /** Groups built from a set of records. */
  ghost predicate GroupsFor(gs: seq<HashGroup>, rows: set<Triple>) {
    ValidHashGroups(gs) && Elements(GroupRecords(gs)) == rows
  }

  /** finalize succeeds exactly when the groups are representable; then, and only then, the artifact is replaced. */
  ghost predicate Published(r: Result<()>, gs: seq<HashGroup>, m: map<nat, GameMetadata>, n: nat,
                            before: Option<seq<byte>>, after: Option<seq<byte>>) {
    && ValidRecords(MetadataList(m))
    && (r.Ok? <==> Representable(gs, MetadataList(m), n))
    && (r.Err? ==> r == Err(SchemaMismatch))
    && after == (if r.Ok? then Some(Artifact(gs, MetadataList(m), n)) else before)
    && (r.Ok? ==> Acceptable(after.value))
  }

  class PositionPostings {
    var artifact: Option<seq<byte>>  // the file at the index's path
    const spillThreshold: nat

    // the builder
    var records: seq<Triple>
    var metadata: map<nat, GameMetadata>
    var spillRuns: seq<seq<Triple>>
    var indexedGameCount: nat

    // the reader
    var isOpen: bool
    var index: Index

    ghost predicate Valid()
      reads this
    {
      && ValidMetadataMap(metadata) && indexedGameCount <= U64_MAX
      && AllSorted(spillRuns)
      && RowsKnown(Pending(), metadata)
      && (records != [] ==> |records| < spillThreshold)
    }

    /** The distinct records buffered or spilled. */
    ghost function Pending(): set<Triple>
      reads this
    {
      Union(spillRuns) + Elements(records)
    }

    /** The reader's tables were loaded from the file as it now is. */
    ghost predicate Loaded()
      reads this
    {
      isOpen ==> artifact.Some? && Acceptable(artifact.value) && index == IndexOf(artifact.value)
    }

    constructor (file: Option<seq<byte>>, threshold: nat)
      ensures Valid() && Pending() == {} && metadata == map[] && indexedGameCount == 0
      ensures artifact == file && spillThreshold == threshold && !isOpen && Loaded()
    {
      artifact, spillThreshold := file, threshold;
      records, metadata, spillRuns, indexedGameCount := [], map[], [], 0;
      isOpen, index := false, Index(Header(0, 0, 0, 0, 0, 0, 0, 0, 0), [], []);
    }

    /** build() starts from the store's own game count. */
    method SetGameCount(count: nat)
      requires Valid() && count <= U64_MAX
      modifies `indexedGameCount
      ensures Valid() && Pending() == old(Pending()) && indexedGameCount == count
    {
      indexedGameCount := count;
    }

    /** append: buffers the rows up to the first one it rejects; the game count is only updated on success. */
    method Append(rows: seq<Row>) returns (r: Result<()>, ghost taken: nat)
      requires Valid() && forall i :: 0 <= i < |rows| ==> RowFits(rows[i])
      modifies `records, `metadata, `spillRuns, `indexedGameCount
      ensures Valid()
      ensures r.Ok? <==> spillThreshold > 0 && AllRowsOk(old(metadata), rows)
      ensures r.Err? ==> r.error == InvalidArgument && indexedGameCount == old(indexedGameCount)
      ensures r.Ok? ==> taken == |rows| && indexedGameCount == |metadata|
      ensures taken <= |rows| && AllRowsOk(old(metadata), rows[..taken])
      ensures r.Err? && spillThreshold > 0 ==> taken < |rows| && !RowOk(metadata, rows[taken])
      ensures r.Err? && spillThreshold == 0 ==> taken == 0
      ensures metadata == Learned(old(metadata), rows[..taken])
      ensures Pending() == old(Pending()) + Elements(RowRecords(rows[..taken]))
    {
      hide Union, AllSorted, AllRowsOk, Learned, RowOk, ValidMetadataMap, RowsKnown;
      taken := 0;
      NothingTaken(rows, old(metadata), Pending());
      if spillThreshold == 0 {
        return Err(InvalidArgument), 0;
      }
      for k := 0 to |rows|
        invariant Valid()
        invariant indexedGameCount == old(indexedGameCount)
        invariant taken == k && AllRowsOk(old(metadata), rows[..k])
        invariant metadata == Learned(old(metadata), rows[..k])
        invariant Pending() == old(Pending()) + Elements(RowRecords(rows[..k]))
      {
        assert rows[..k + 1][..k] == rows[..k];
        var ok := TakeRow(rows[k]);
        if !ok {
          RejectedPrefix(old(metadata), rows, k);
          return Err(InvalidArgument), k;
        }
        OneMore(old(metadata), rows, k);
        taken := k + 1;
      }
      assert rows[..|rows|] == rows;
      TableIsSmall(metadata);
      indexedGameCount := |metadata|;
      return Ok(()), |rows|;
    }

    /** The loop body of append. */
    method TakeRow(row: Row) returns (ok: bool)
      requires Valid() && RowFits(row) && spillThreshold > 0
      modifies `records, `metadata, `spillRuns
      ensures Valid()
      ensures ok <==> RowOk(old(metadata), row)
      ensures metadata == if ok then old(metadata)[row.game := MetadataOfRow(row)] else old(metadata)
      ensures Pending() == old(Pending()) + if ok then {RecordOf(row)} else {}
    {
      if row.game == 0 || row.result < -1 || row.result > 1 || (row.game in metadata && metadata[row.game] != MetadataOfRow(row)) {
        return false;
      }
      hide Union, AllSorted, RowsKnown, ValidMetadataMap, RecordOf, MetadataOfRow, RowFits;
      RowTaken(Pending(), metadata, row);
      BufferGrows(records, RecordOf(row));
      metadata := metadata[row.game := MetadataOfRow(row)];
      records := records + [RecordOf(row)];
      assert Pending() == old(Pending()) + {RecordOf(row)};
      if |records| >= spillThreshold {
        SpillCurrentBuffer();
      }
      return true;
    }

    /** spill_current_buffer: the buffer becomes one sorted run. */
    method SpillCurrentBuffer()
      requires AllSorted(spillRuns)
      modifies `records, `spillRuns
      ensures records == [] && AllSorted(spillRuns)
      ensures Pending() == old(Pending())
      ensures spillRuns == old(spillRuns) + if old(records) == [] then [] else [Sort(old(records))]
    {
      if records == [] {
        assert spillRuns + [] == spillRuns;
        return;
      }
      SortSorts(records);
      UnionAppends(spillRuns, Sort(records));
      spillRuns := spillRuns + [Sort(records)];
      records := [];
    }

    /** The merge loop: any cursor with a least current record next, repeated records dropped. */
    method MergeRuns() returns (merger: RunMerger.Merger)
      requires AllSorted(spillRuns) && RowsKnown(Union(spillRuns), metadata)
      ensures fresh(merger) && fresh(merger.writer) && fresh(merger.dirspool)
      ensures merger.writer != merger.dirspool && merger.writer.Valid() && merger.dirspool.Valid()
      ensures GroupsFor(merger.done, Union(spillRuns))
      ensures merger.writer.Contents() == RunMerger.Written(merger.done)
      ensures merger.blocks == BlocksOf(EntriesOf(merger.done)) && forall i :: 0 <= i < |merger.blocks| ==> merger.blocks[i] != []
      ensures merger.dirspool.Contents() == DirectoryBytes(merger.blocks) && merger.sparse == SparseOf(merger.blocks, 0)
      ensures merger.distinctHashCount == |merger.done| && merger.totalOccurrences == |GroupRecords(merger.done)|
    {
      hide BlocksOf, EntriesOf, DirectoryBytes, SparseOf, GroupRecords, Union, RunMerger.Merger.Ready, RunMerger.Merger.Emitted, RunMerger.Written;
      hide IsLeast, Sorted, AllSorted;
      merger := new RunMerger.Merger();
      var cursors := spillRuns;
      forall t
        ensures t in Union(spillRuns) <==> InCursors(cursors, t)
      {
        InUnion(spillRuns, t);
      }
      hide InCursors;
      var previous := Triple(0, 0, 0);
      var havePrevious := false;
      while !Exhausted(cursors)
        invariant fresh(merger) && fresh(merger.writer) && fresh(merger.dirspool)
        invariant AllSorted(cursors) && merger.Ready()
        invariant merger.haveActiveHash == havePrevious
        invariant havePrevious ==> merger.active.plies != [] && merger.LastRecord() == previous
        invariant !havePrevious ==> merger.Emitted() == []
        invariant forall t :: t in Union(spillRuns) <==> t in merger.Emitted() || InCursors(cursors, t)
        invariant havePrevious ==> previous in merger.Emitted() && forall t :: InCursors(cursors, t) ==> !Less(t, previous)
        decreases Records(cursors)
      {
        LeastIndexExists(cursors);
        var i :| 0 <= i < |cursors| && IsLeast(cursors, i);
        PopLeast(cursors, i);
        LeastIsCurrent(cursors, i);
        var current := cursors[i][0];
        assert RecordOk(current, metadata);
        if !havePrevious || current != previous {
          ghost var emitted := merger.Emitted();
          merger.Accept(current);
          assert forall t :: t in merger.Emitted() <==> t in emitted || t == current;
          previous, havePrevious := current, true;
        }
        cursors := cursors[i := cursors[i][1..]];
      }
      forall t
        ensures !InCursors(cursors, t)
      {
        NoneLeft(cursors, t);
      }
      ghost var emitted := merger.Emitted();
      merger.Finish();
      assert Elements(GroupRecords(merger.done)) == Union(spillRuns);
    }

    /** finalize: spill, merge, and replace the artifact only by one the reader accepts. */
    method Finalize() returns (r: Result<()>, ghost gs: seq<HashGroup>)
      requires Valid()
      modifies `records, `spillRuns, `artifact
      ensures Valid()
      ensures spillThreshold == 0 ==> r == Err(InvalidArgument) && artifact == old(artifact) && Pending() == old(Pending())
      ensures spillThreshold > 0 ==> GroupsFor(gs, old(Pending())) && Pending() == {}
      ensures spillThreshold > 0 ==> Published(r, gs, metadata, indexedGameCount, old(artifact), artifact)
    {
      hide Acceptable, Artifact, Representable, ValidRecords, GroupRecords, BlocksOf, EntriesOf, DirectoryBytes, SparseOf;
      hide MetadataList, Union, AllSorted, RunMerger.Written, ValidHashGroups, ValidMetadataMap, Published;
      hide BufferedWriter.BufferedFileWriter.Contents, BufferedWriter.BufferedFileWriter.Valid, RowsKnown, Elements;
      gs := [];
      if spillThreshold == 0 {
        return Err(InvalidArgument), [];
      }
      SpillCurrentBuffer();
      NothingPending(metadata);
      assert Union(spillRuns) == Pending();
      var merger := MergeRuns();
      spillRuns := [];
      assert Pending() == {} && RowsKnown({}, metadata);
      gs := merger.done;
      r := Publish(merger);
    }

    /** The end of merge_runs: the staged file replaces the artifact only if the reader accepts it. */
    method Publish(merger: RunMerger.Merger) returns (r: Result<()>)
      requires ValidMetadataMap(metadata) && indexedGameCount <= U64_MAX
      requires merger.writer != merger.dirspool && merger.writer.Valid() && merger.dirspool.Valid()
      requires ValidHashGroups(merger.done) && merger.writer.Contents() == RunMerger.Written(merger.done)
      requires merger.blocks == BlocksOf(EntriesOf(merger.done)) && forall i :: 0 <= i < |merger.blocks| ==> merger.blocks[i] != []
      requires merger.dirspool.Contents() == DirectoryBytes(merger.blocks) && merger.sparse == SparseOf(merger.blocks, 0)
      requires merger.distinctHashCount == |merger.done| && merger.totalOccurrences == |GroupRecords(merger.done)|
      modifies `artifact, merger.writer, merger.dirspool
      ensures Published(r, merger.done, metadata, indexedGameCount, old(artifact), artifact)
    {
      hide Acceptable, IndexOf, Directory, Artifact, Representable, ValidRecords, GroupRecords, BlocksOf, EntriesOf, DirectoryBytes, SparseOf;
      hide MetadataList, RunMerger.Written, ValidMetadata, ValidHashGroups;
      MetadataListValid(metadata);
      var table := SortedMetadata(metadata);
      RecordsAreValid(table);
      var staged := ArtifactAssembly.Assemble(merger, table, indexedGameCount);
      ArtifactIsAcceptable(merger.done, table, indexedGameCount, staged);
      var loaded := Open(staged);
      if loaded.Err? {
        return Err(SchemaMismatch);
      }
      artifact := Some(staged);
      return Ok(());
    }

    /** open: loads the reader's tables, or leaves the reader closed; a failure behind the header's first words has overwritten the game count. */
    method OpenIndex() returns (r: Result<()>)
      requires Valid()
      modifies `isOpen, `index, `indexedGameCount
      ensures Valid() && Loaded()
      ensures r.Ok? <==> artifact.Some? && Acceptable(artifact.value)
      ensures r.Ok? <==> isOpen
      ensures r.Ok? ==> indexedGameCount == StoredHeader(artifact.value).gameCount
      ensures r.Err? ==> r.error == if artifact.None? then IoFailure else SchemaMismatch
      ensures r.Err? ==>
        indexedGameCount == if artifact.Some? && HeaderStarts(artifact.value) then FixedAt(artifact.value, 16, 8) else old(indexedGameCount)
    {
      hide DirectoryOk, MetadataOk, SparseOk, BlocksOk, FixedAt;
      isOpen := false;
      if artifact.None? {
        return Err(IoFailure);
      }
      if HeaderStarts(artifact.value) {
        var count := ReadFixed(artifact.value, 16, 8);
        WordCapacities();
        indexedGameCount := count.value;
      }
      var loaded := Open(artifact.value);
      if loaded.Err? {
        return Err(loaded.error);
      }
      index := loaded.value;
      isOpen := true;
      return Ok(());
    }

    method Occurrences(hash: nat, limit: nat, skip: nat) returns (r: Result<seq<Match>>)
      requires Loaded()
      ensures r == if isOpen then OccurrencesAnswer(artifact.value, hash, limit, skip) else Err(InvalidArgument)
    {
      hide Acceptable, IndexOf, OccurrencesAnswer;
      if !isOpen {
        return Err(InvalidArgument);
      }
      r := OccurrencesOf(artifact.value, index, hash, limit, skip);
    }

    method FirstOccurrences(hash: nat, requested: seq<nat>) returns (r: Result<seq<Match>>)
      requires Loaded()
      ensures r == if isOpen then FirstsAnswer(artifact.value, hash, requested) else Err(InvalidArgument)
    {
      hide Acceptable, IndexOf, FirstsAnswer;
      if !isOpen {
        return Err(InvalidArgument);
      }
      r := FirstOccurrencesOf(artifact.value, index, hash, requested);
    }

    method DistinctGames(hash: nat, limit: nat, skip: nat) returns (r: Result<seq<nat>>)
      requires Loaded()
      ensures r == if !isOpen then Err(InvalidArgument)
                   else match GameIdsAnswer(artifact.value, hash) case Err(e) => Err(e) case Ok(ids) => Ok(Page(ids, limit, skip))
    {
      hide Acceptable, IndexOf, GameIdsAnswer;
      if !isOpen {
        return Err(InvalidArgument);
      }
      r := DistinctGameIdsPage(artifact.value, index, hash, limit, skip);
    }

    method ForEachSummary() returns (r: Result<seq<(nat, Summary)>>)
      requires Loaded()
      ensures r == if isOpen then Ok(SummaryPairs(Directory(artifact.value, index))) else Err(InvalidArgument)
    {
      hide IndexOf, SummaryPairs, Concat;
      if !isOpen {
        return Err(InvalidArgument);
      }
      r := Summaries(artifact.value, index);
    }
  }

  lemma NothingPending(m: map<nat, GameMetadata>)
    ensures AllSorted([]) && Union([]) == {} && Elements<Triple>([]) == {} && RowsKnown({}, m)
  {
  }

  lemma NothingTaken(rows: seq<Row>, m: map<nat, GameMetadata>, pending: set<Triple>)
    ensures rows[..0] == [] && AllRowsOk(m, rows[..0]) && Learned(m, rows[..0]) == m
    ensures pending == pending + Elements(RowRecords(rows[..0]))
  {
  }

  /** A rejected row makes the whole list unacceptable. */
  lemma {:induction false} RejectedPrefix(m: map<nat, GameMetadata>, rows: seq<Row>, k: nat)
    requires k < |rows| && !RowOk(Learned(m, rows[..k]), rows[k])
    ensures !AllRowsOk(m, rows)
    decreases |rows|
  {
    if k < |rows| - 1 {
      assert rows[..|rows| - 1][..k] == rows[..k];
      RejectedPrefix(m, rows[..|rows| - 1], k);
    }
  }

  lemma OneMore(m: map<nat, GameMetadata>, rows: seq<Row>, k: nat)
    requires k < |rows| && AllRowsOk(m, rows[..k]) && RowOk(Learned(m, rows[..k]), rows[k])
    ensures AllRowsOk(m, rows[..k + 1])
    ensures Learned(m, rows[..k + 1]) == Learned(m, rows[..k])[rows[k].game := MetadataOfRow(rows[k])]
    ensures Elements(RowRecords(rows[..k + 1])) == Elements(RowRecords(rows[..k])) + {RecordOf(rows[k])}
  {
    assert rows[..k + 1][..k] == rows[..k];
    assert RowRecords(rows[..k + 1]) == RowRecords(rows[..k]) + [RecordOf(rows[k])];
  }

  /** std::ranges::sort over the metadata table, by id. */
  method SortedMetadata(m: map<nat, GameMetadata>) returns (table: seq<MetadataRecord>)
    ensures table == MetadataList(m)
  {
    hide MetadataList;
    table := [];
    var rest := m;
    while rest.Keys != {}
      invariant table + MetadataList(rest) == MetadataList(m)
      decreases |rest|
    {
      LeastIdExists(rest.Keys);
      var id :| id in rest.Keys && forall other :: other in rest.Keys ==> id <= other;
      assert id == LeastId(rest.Keys);
      RestOfMap(rest, id);
      MetadataListStep(rest);
      assert table + ([MetadataRecord(id, rest[id])] + MetadataList(rest - {id})) == table + [MetadataRecord(id, rest[id])] + MetadataList(rest - {id});
      table := table + [MetadataRecord(id, rest[id])];
      rest := rest - {id};
    }
    MetadataListStep(rest);
    assert table + [] == table;
  }

  lemma MetadataListStep(m: map<nat, GameMetadata>)
    ensures m.Keys == {} ==> MetadataList(m) == []
    ensures m.Keys != {} ==> MetadataList(m) == [MetadataRecord(LeastId(m.Keys), m[LeastId(m.Keys)])] + MetadataList(m - {LeastId(m.Keys)})
  {
  }

  lemma RecordsAreValid(records: seq<MetadataRecord>)
    requires ValidRecords(records)
    ensures forall i :: 0 <= i < |records| ==> ValidMetadata(records[i].metadata)
  {
  }

  /** The artifact depends on the set of rows and the metadata only: not on the spill threshold, the runs or their order. */
  lemma ArtifactIsDetermined(a: seq<HashGroup>, b: seq<HashGroup>, rows: set<Triple>, m: map<nat, GameMetadata>, n: nat)
    requires GroupsFor(a, rows) && GroupsFor(b, rows) && ValidRecords(MetadataList(m))
    ensures Artifact(a, MetadataList(m), n) == Artifact(b, MetadataList(m), n)
    ensures Representable(a, MetadataList(m), n) <==> Representable(b, MetadataList(m), n)
  {
    hide GroupRecords, Artifact, ValidHashGroups, Representable;
    GroupsAreUnique(a, b);
  }
}
