/** The generation protocol: derived indexes are built aside, published by the manifest, and invalidated before the games change. */
module DatabaseManager {
  import opened Words
  import opened Chess
  import opened Bundle
  import PostingBlock
  import opened PostingsFile
  import opened PostingsBuild
  import opened PostingsLookup
  import opened PositionPostings
  import opened PostingsAnswers
  import opened PostingsArtifact
  import opened OpeningStats
  import opened OpeningMeaning
  import opened OpeningTreeFile
  import opened OpeningTreeBuilder
  import opened OpeningQueries
  import PostingsReplay
  import GameSearch
  import EloDistribution

  datatype Status = Success | Failure(error: ErrorCode)

  /** Equal but for the informational fields. */
  predicate SameIndexes(a: Manifest, b: Manifest) {
    a.sourceGeneration == b.sourceGeneration && a.buildSeq == b.buildSeq && a.postings == b.postings && a.tree == b.tree
  }

  /** A reader open on the bytes of the named postings file. */
  ghost predicate ReaderOk(reader: PositionPostings, files: map<Name, Content>, m: Manifest)
    reads reader
  {
    && m.postings.Some? && ReaderLoaded(reader)
    && Postings(m.postings.value.build) in files && files[Postings(m.postings.value.build)] == PostingsBytes(reader.artifact.value)
  }

  ghost predicate ReaderLoaded(reader: PositionPostings)
    reads reader
  {
    reader.isOpen && reader.Loaded() && reader.indexedGameCount == StoredHeader(reader.artifact.value).gameCount
  }

  /** A tree loaded from the named tree file. */
  ghost predicate TreeReaderOk(tree: LiveTree, files: map<Name, Content>, m: Manifest, rules: Rules) {
    && m.tree.Some? && Tree(m.tree.value.build) in files && files[Tree(m.tree.value.build)] == TreeBytes(tree.file)
    && LoadedFrom(tree.index, tree.file, StartHash(rules))
  }

  /** The header of a store's index counts its games. */
  lemma IndexedCount(file: seq<byte>, rules: Rules, games: seq<StoredGame>)
    requires IndexesStore(file, rules, games) && ValidStore(games)
    ensures |file| >= PostingsFile.HEADER_SIZE && StoredHeader(file).gameCount == |games|
  {
    hide Artifact, StoredHeader, GroupsFor, ValidRecords, MetadataList, PostingsFile.HeaderOk, MetadataOk, SparseOk, BlocksOk, StoreRecords, StoreMetadata;
    var gs := IndexGroups(file, rules, games);
    HeaderIsStored(gs, MetadataList(StoreMetadata(games)), |games|, file);
  }

  lemma ReaderKept(reader: PositionPostings, files: map<Name, Content>, files': map<Name, Content>, m: Manifest)
    requires ReaderOk(reader, files, m) && NamedKept(files, files', Some(m))
    ensures ReaderOk(reader, files', m)
  {
    hide PositionPostings.Loaded;
    assert Named(Some(m), Postings(m.postings.value.build));
  }

  lemma TreeReaderKept(tree: LiveTree, files: map<Name, Content>, files': map<Name, Content>, m: Manifest, rules: Rules)
    requires TreeReaderOk(tree, files, m, rules) && NamedKept(files, files', Some(m))
    ensures TreeReaderOk(tree, files', m, rules)
  {
    hide LoadedFrom;
    assert Named(Some(m), Tree(m.tree.value.build));
  }

  lemma SameNames(a: Manifest, b: Manifest, files: map<Name, Content>, files': map<Name, Content>)
    requires SameIndexes(a, b) && NamedKept(files, files', Some(a))
    ensures NamedKept(files, files', Some(b))
  {
    forall name | name in files && Named(Some(b), name)
      ensures name in files' && files'[name] == files[name]
    {
      assert Named(Some(a), name);
    }
  }

  /** An index of these games or of more that counts as many games is the index of these games. */
  lemma CountedIsCurrent(file: seq<byte>, rules: Rules, games: seq<StoredGame>)
    requires IndexesMore(file, rules, games) && GamesOk(games)
    ensures |file| >= PostingsFile.HEADER_SIZE
    ensures StoredHeader(file).gameCount == |games| ==> IndexesStore(file, rules, games) && AllStorable(games)
  {
    hide IndexesStore, AllStorable, Remain, StoredHeader, ValidStore, AllElosOk;
    var indexed :| GamesOk(indexed) && Remain(games, indexed) && IndexesStore(file, rules, indexed) && AllStorable(indexed);
    IndexedCount(file, rules, indexed);
    NoneRemoved(games, indexed);
  }

  lemma CountedTreeIsCurrent(file: TreeFile, rules: Rules, games: seq<StoredGame>)
    requires TreeIndexesMore(file, rules, games) && GamesOk(games)
    ensures StoredGameCount(file) == |games| ==> IndexesTree(file, rules, MAX_ROOT_PLY, games)
  {
    hide BuiltNodes, Remain, ValidStore, AllElosOk, MovesFit, FileOf, StoredGameCount;
    var indexed :| GamesOk(indexed) && Remain(games, indexed) && IndexesTree(file, rules, MAX_ROOT_PLY, indexed);
    var nodes :| BuiltNodes(nodes, rules, MAX_ROOT_PLY, indexed) && file == FileOf(nodes, MAX_ROOT_PLY, |indexed|);
    StoreIsBounded(indexed);
    GameCountIsRead(nodes, MAX_ROOT_PLY, |indexed|);
    NoneRemoved(games, indexed);
  }

  lemma EntryIsCurrent(files: map<Name, Content>, onDisk: Manifest, m: Manifest, games: seq<StoredGame>, config: Config)
    requires BundleOk(files, Some(onDisk), games, config) && SameIndexes(onDisk, m)
    ensures m.postings.Some? ==> m.postings.value.sourceGeneration == m.sourceGeneration
  {
    hide IndexesMore, TreeIndexesMore, GamesOk;
  }

  /** With the entry intact and the game count right, an open reader answers for the games now stored. */
  lemma ReaderIsUpToDate(reader: PositionPostings, files: map<Name, Content>, onDisk: Manifest, m: Manifest, games: seq<StoredGame>, config: Config)
    requires BundleOk(files, Some(onDisk), games, config) && SameIndexes(onDisk, m) && ReaderOk(reader, files, m)
    requires reader.indexedGameCount == |games|
    ensures UpToDate(reader, config.rules, games) && AllStorable(games)
  {
    hide IndexesMore, TreeIndexesMore, IndexesStore, AllStorable, GamesOk, Acceptable, IndexOf, StoredHeader;
    CountedIsCurrent(reader.artifact.value, config.rules, games);
  }

  /** The next build number is not named yet. */
  lemma NextBuildUnnamed(files: map<Name, Content>, m: Manifest, games: seq<StoredGame>, config: Config)
    requires BundleOk(files, Some(m), games, config)
    ensures !Named(Some(m), Postings(m.buildSeq)) && !Named(Some(m), Tree(m.buildSeq))
    ensures !Named(Some(m), PostingsStaging(m.buildSeq)) && !Named(Some(m), TreeStaging(m.buildSeq))
  {
    hide IndexesMore, TreeIndexesMore, GamesOk;
  }

  /** Publishing an index of the stored games under the next build number keeps the bundle in order. */
  lemma CandidateOk(files: map<Name, Content>, m: Manifest, games: seq<StoredGame>, config: Config, name: Name, gameCount: nat)
    requires BundleOk(files, Some(m), games, config) && (name.Postings? || name.Tree?) && name.build == m.buildSeq && name in files
    requires name.Postings? ==> IndexFileOk(files[name], config.rules, games)
    requires name.Tree? ==> TreeFileOk(files[name], config.rules, games)
    ensures BundleOk(files, Some(WithEntry(m, name, IndexEntry(name.build, m.sourceGeneration, gameCount, (config.digest)(files[name])))), games, config)
  {
    hide IndexesMore, TreeIndexesMore, IndexFileOk, TreeFileOk, GamesOk;
    if name.Postings? {
      IsIndexOfMore(files[name], games, config);
    } else {
      IsTreeOfMore(files[name], games, config);
    }
  }

  function WithEntry(m: Manifest, name: Name, e: IndexEntry): Manifest {
    if name.Postings? then m.(buildSeq := name.build + 1, postings := Some(e)) else m.(buildSeq := name.build + 1, tree := Some(e))
  }

  /** A file that may be published as postings: the index of the stored games. */
  ghost predicate IndexFileOk(content: Content, rules: Rules, games: seq<StoredGame>) {
    content.PostingsBytes? && IndexesStore(content.bytes, rules, games) && AllStorable(games)
  }

  ghost predicate TreeFileOk(content: Content, rules: Rules, games: seq<StoredGame>) {
    content.TreeBytes? && IndexesTree(content.bytes, rules, MAX_ROOT_PLY, games)
  }

  lemma IsIndexOfMore(content: Content, games: seq<StoredGame>, config: Config)
    requires IndexFileOk(content, config.rules, games) && GamesOk(games)
    ensures content.PostingsBytes? && IndexesMore(content.bytes, config.rules, games)
  {
    hide IndexesStore, AllStorable, GamesOk, Remain;
    AllRemain(games);
  }

  lemma IsTreeOfMore(content: Content, games: seq<StoredGame>, config: Config)
    requires TreeFileOk(content, config.rules, games) && GamesOk(games)
    ensures content.TreeBytes? && TreeIndexesMore(content.bytes, config.rules, games)
  {
    hide IndexesTree, GamesOk, Remain;
    AllRemain(games);
  }

  lemma SameBundle(files: map<Name, Content>, a: Manifest, b: Manifest, games: seq<StoredGame>, config: Config)
    requires BundleOk(files, Some(a), games, config) && SameIndexes(a, b)
    ensures BundleOk(files, Some(b), games, config)
  {
    hide IndexesMore, TreeIndexesMore, GamesOk;
  }

  class DatabaseManager {
    const disk: Disk
    const config: Config
    var connected: bool
    var manifest: Manifest
    var postings: PositionPostings?
    var tree: Option<LiveTree>

    /** Memory agrees with the disk, as long as the process has not crashed. */
    ghost predicate Valid()
      reads this, disk, postings
    {
      disk.Ok() && disk.config == config && ReadersLoaded() && (connected && !disk.Crashed() ==> Agrees())
    }

    ghost predicate ReadersLoaded()
      reads this, postings
    {
      && (postings != null ==> ReaderLoaded(postings))
      && (tree.Some? ==> LoadedFrom(tree.value.index, tree.value.file, StartHash(config.rules)))
    }

    ghost predicate Agrees()
      reads this, disk, postings
    {
      && disk.hasDatabase && disk.manifest.Some? && SameIndexes(disk.manifest.value, manifest)
      && (postings != null ==> ReaderOk(postings, disk.files, manifest))
      && (tree.Some? ==> TreeReaderOk(tree.value, disk.files, manifest, config.rules))
    }

    constructor (disk: Disk)
      requires disk.Ok()
      ensures Valid() && !connected && this.disk == disk && postings == null && tree.None? && config == disk.config
    {
      this.disk, config := disk, disk.config;
      connected, manifest, postings, tree := false, FreshManifest(), null, None;
    }

    predicate HasValidIndex(e: IndexEntry)
      reads this
    {
      e.sourceGeneration == manifest.sourceGeneration
    }

    /** Readers survive changes to unnamed files. */
    lemma Refresh(before: map<Name, Content>)
      requires disk.Ok() && disk.config == config && ReadersLoaded() && (connected && !disk.Crashed() ==> disk.manifest.Some? && SameIndexes(disk.manifest.value, manifest))
      requires connected && !disk.Crashed() ==> NamedKept(before, disk.files, disk.manifest)
      requires connected && !disk.Crashed() && postings != null ==> ReaderOk(postings, before, manifest)
      requires connected && !disk.Crashed() && tree.Some? ==> TreeReaderOk(tree.value, before, manifest, config.rules)
      ensures Valid()
    {
      hide BundleOk, ReaderOk, TreeReaderOk, NamedKept;
      if connected && !disk.Crashed() {
        SameNames(disk.manifest.value, manifest, before, disk.files);
        if postings != null {
          ReaderKept(postings, before, disk.files, manifest);
        }
        if tree.Some? {
          TreeReaderKept(tree.value, before, disk.files, manifest, config.rules);
        }
      }
    }

    // File operations on names the manifest does not hold.

    method RemoveFile(name: Name)
      requires Valid() && connected && (disk.Crashed() || !Named(Some(manifest), name))
      modifies disk`files, disk`steps
      ensures Valid() && disk.steps <= old(disk.steps)
    {
      hide BundleOk, ReaderOk, TreeReaderOk, NamedKept;
      ghost var before := disk.files;
      disk.Remove(name);
      Refresh(before);
    }

    method PutFile(name: Name, content: Content) returns (ok: bool)
      requires Valid() && connected && (disk.Crashed() || !Named(Some(manifest), name))
      modifies disk`files, disk`steps
      ensures Valid() && disk.steps <= old(disk.steps)
      ensures !disk.Crashed() && ok ==> name in disk.files && disk.files[name] == content
    {
      hide BundleOk, ReaderOk, TreeReaderOk, NamedKept;
      ghost var before := disk.files;
      ok := disk.Put(name, content);
      Refresh(before);
    }

    method RenameFile(from: Name, to: Name) returns (ok: bool)
      requires Valid() && connected && from != to
      requires disk.Crashed() || (!Named(Some(manifest), from) && !Named(Some(manifest), to))
      modifies disk`files, disk`steps
      ensures Valid() && disk.steps <= old(disk.steps)
      ensures !disk.Crashed() && ok ==> from in old(disk.files) && to in disk.files && disk.files[to] == old(disk.files)[from]
    {
      hide BundleOk, ReaderOk, TreeReaderOk, NamedKept;
      ghost var before := disk.files;
      ok := disk.Rename(from, to);
      Refresh(before);
    }

    /** postings_cover_canonical_games, also the gate in front of every position query. */
    method PostingsValid() returns (valid: bool)
      requires Valid() && connected
      ensures valid ==> postings != null && postings.indexedGameCount == |disk.games|
      ensures !disk.Crashed() ==> (valid <==> postings != null && postings.indexedGameCount == |disk.games|)
      ensures valid && !disk.Crashed() ==> UpToDate(postings, config.rules, disk.games) && AllStorable(disk.games)
    {
      hide BundleOk, ReaderOk, TreeReaderOk, NamedKept, UpToDate, AllStorable;
      if postings != null && !disk.Crashed() {
        EntryIsCurrent(disk.files, disk.manifest.value, manifest, disk.games, config);
        ReaderNamed(postings, disk.files, manifest);
        if postings.indexedGameCount == |disk.games| {
          ReaderIsUpToDate(postings, disk.files, disk.manifest.value, manifest, disk.games, config);
        }
      }
      return postings != null && manifest.postings.Some? && HasValidIndex(manifest.postings.value) && |disk.games| == postings.indexedGameCount;
    }

    /** mark_derived_indexes_stale: a manifest without entries first, then memory, then the files. */
    method MarkDerivedIndexesStale() returns (r: Status)
      requires Valid() && connected
      modifies `manifest, `postings, `tree, disk`files, disk`manifest, disk`steps
      ensures Valid() && disk.steps <= old(disk.steps)
      ensures r.Success? && !disk.Crashed() ==> Stale() && manifest.sourceGeneration == old(manifest.sourceGeneration) + 1
      ensures r.Failure? ==> r.error == IoFailure
      ensures r.Failure? ==>
        || (manifest == old(manifest) && postings == old(postings) && tree == old(tree))
        || (manifest.postings.None? && manifest.tree.None? && postings == null && tree.None?)
    {
      hide BundleOk, ReaderOk, TreeReaderOk, NamedKept, ReaderLoaded, LoadedFrom, GamesOk, ValidStore, AllElosOk;
      var stalePostings, staleTree := manifest.postings, manifest.tree;
      var candidate := manifest.(sourceGeneration := manifest.sourceGeneration + 1, postings := None, tree := None);
      GamesAreOk(disk.files, disk.manifest, disk.games, config);
      EntriesGone(disk.files, candidate, disk.games, config);
      var outcome := disk.WriteManifest(candidate);
      if outcome.NotPublished? {
        return Failure(IoFailure);
      }
      manifest := candidate;
      postings, tree := null, None;
      if stalePostings.Some? {
        RemoveFile(Postings(stalePostings.value.build));
      }
      if staleTree.Some? {
        RemoveFile(Tree(staleTree.value.build));
      }
      return if outcome.PublishedNotDurable? then Failure(IoFailure) else Success;
    }

    /** No derived index is named, on disk or in memory. */
    ghost predicate Stale()
      reads this, disk
    {
      && disk.manifest.Some? && disk.manifest.value.postings.None? && disk.manifest.value.tree.None?
      && manifest.postings.None? && manifest.tree.None? && postings == null && tree.None?
    }

    /** prepare_canonical_mutation. */
    method PrepareCanonicalMutation() returns (r: Status)
      requires Valid() && connected
      modifies `manifest, `postings, `tree, disk`files, disk`manifest, disk`steps
      ensures Valid() && disk.steps <= old(disk.steps)
      ensures r.Success? && !disk.Crashed() ==> Stale()
      ensures r.Failure? ==> r.error == IoFailure
    {
      hide BundleOk, NamedKept;
      if manifest.postings.None? && manifest.tree.None? {
        return Success;
      }
      r := MarkDerivedIndexesStale();
    }

    /** publish_derived_index: checksum the new file and name it in the manifest under the next build number. */
    method Publish(name: Name) returns (outcome: WriteOutcome)
      requires Valid() && connected && (name.Postings? || name.Tree?) && name.build == manifest.buildSeq
      requires !disk.Crashed() && name.Postings? ==> name in disk.files && IndexFileOk(disk.files[name], config.rules, disk.games)
      requires !disk.Crashed() && name.Tree? ==> name in disk.files && TreeFileOk(disk.files[name], config.rules, disk.games)
      modifies `manifest, disk`manifest, disk`steps
      ensures disk.Ok() && disk.steps <= old(disk.steps)
      ensures outcome.NotPublished? ==> manifest == old(manifest) && (!disk.Crashed() ==> disk.manifest == old(disk.manifest))
      ensures !outcome.NotPublished? ==> WithNewEntry(old(manifest), manifest, name)
      ensures !disk.Crashed() ==> disk.manifest.Some? && SameIndexes(disk.manifest.value, manifest)
    {
      hide BundleOk, ReaderOk, TreeReaderOk, NamedKept, IndexFileOk, TreeFileOk;
      var failed: bool := *;  // the sync, the checksum or the game count may fail
      if failed || name !in disk.files {
        return NotPublished;
      }
      var entry := IndexEntry(name.build, manifest.sourceGeneration, |disk.games|, (config.digest)(disk.files[name]));
      var candidate := WithEntry(manifest, name, entry);
      if !disk.Crashed() {
        SameBundle(disk.files, disk.manifest.value, manifest, disk.games, config);
        CandidateOk(disk.files, manifest, disk.games, config, name, |disk.games|);
      }
      outcome := disk.WriteManifest(candidate);
      if !outcome.NotPublished? {
        manifest := candidate;
      }
    }

    /** position_postings::build into a staging file, followed by the trial open. */
    method StagePostings(staging: Name) returns (ok: bool)
      requires Valid() && connected && staging.PostingsStaging? && (disk.Crashed() || !Named(Some(manifest), staging))
      modifies disk`files, disk`steps
      ensures Valid() && disk.steps <= old(disk.steps)
      ensures ok && !disk.Crashed() ==> staging in disk.files && IndexFileOk(disk.files[staging], config.rules, disk.games)
    {
      hide BundleOk, ReaderOk, TreeReaderOk, NamedKept, IndexesStore, AllStorable, Published, GroupsFor, ValidStore;
      GamesAreOk(disk.files, disk.manifest, disk.games, config);
      var failed: bool := *;  // reading the store or writing the file may fail
      if failed || |disk.games| > U64_MAX {
        return false;
      }
      var builder, built, gs := Build(config.rules, disk.games, |disk.games|, None, SPILL_THRESHOLD);
      if built.Err? {
        return false;
      }
      ok := PutFile(staging, PostingsBytes(builder.artifact.value));
      if !ok {
        return false;
      }
      var staged := OpenReader(staging);
      return staged != null;
    }

    /** A postings reader on a file, if it opens. */
    method OpenReader(name: Name) returns (reader: PositionPostings?)
      ensures reader != null ==> fresh(reader) && ReaderLoaded(reader)
      ensures reader != null ==> name in disk.files && disk.files[name] == PostingsBytes(reader.artifact.value)
    {
      var failed: bool := *;
      if failed || name !in disk.files || !disk.files[name].PostingsBytes? {
        return null;
      }
      var candidate := new PositionPostings(Some(disk.files[name].bytes), SPILL_THRESHOLD);
      var loaded := candidate.OpenIndex();
      return if loaded.Ok? then candidate else null;
    }

    /** The names of the next build are free. */
    lemma NextNamesFree()
      requires Valid() && connected
      ensures
        var m, build := Some(manifest), manifest.buildSeq;
        !disk.Crashed() ==>
          !Named(m, Postings(build)) && !Named(m, Tree(build)) && !Named(m, PostingsStaging(build)) && !Named(m, TreeStaging(build))
    {
      hide BundleOk, ReaderOk, TreeReaderOk;
      if !disk.Crashed() {
        SameBundle(disk.files, disk.manifest.value, manifest, disk.games, config);
        NextBuildUnnamed(disk.files, manifest, disk.games, config);
      }
    }

    /** The postings are open and answer for the games now stored. */
    ghost predicate Covered()
      reads this, disk, postings
    {
      postings != null && UpToDate(postings, config.rules, disk.games)
    }

    /** Publishes a postings file and, if the manifest names it, installs its reader. */
    method PublishReader(live: PositionPostings, name: Name) returns (outcome: WriteOutcome)
      requires Valid() && connected && name == Postings(manifest.buildSeq) && ReaderLoaded(live)
      requires !disk.Crashed() ==>
        name in disk.files && disk.files[name] == PostingsBytes(live.artifact.value) && IndexFileOk(disk.files[name], config.rules, disk.games)
      modifies `manifest, `postings, disk`manifest, disk`steps
      ensures Valid() && disk.steps <= old(disk.steps)
      ensures outcome.NotPublished? ==> manifest == old(manifest) && postings == old(postings)
      ensures !outcome.NotPublished? ==> WithNewEntry(old(manifest), manifest, name) && postings == live
      ensures !outcome.NotPublished? && !disk.Crashed() ==> Covered()
    {
      hide BundleOk, ReaderOk, TreeReaderOk, NamedKept, IndexFileOk, TreeFileOk, ReaderLoaded, LoadedFrom, UpToDate, GamesOk, ValidStore, AllElosOk, MovesFit;
      if !disk.Crashed() {
        GamesAreOk(disk.files, disk.manifest, disk.games, config);
        LiveIsUpToDate(live, disk.files[name], config.rules, disk.games);
      }
      outcome := Publish(name);
      if !outcome.NotPublished? {
        if !disk.Crashed() {
          Installed(live, disk.files, manifest);
          if tree.Some? {
            TreeReaderSame(tree.value, disk.files, old(manifest), manifest, config.rules);
          }
        }
        postings := live;
      }
    }

    /** rebuild_position_postings. */
    method RebuildPositionPostings() returns (r: Status)
      requires Valid() && connected
      modifies `manifest, `postings, disk`files, disk`manifest, disk`steps
      ensures Valid() && disk.steps <= old(disk.steps)
      ensures r.Success? ==> WithNewEntry(old(manifest), manifest, Postings(old(manifest.buildSeq))) && postings != null
      ensures r.Success? && !disk.Crashed() ==> Covered()
      ensures r.Failure? ==> r.error == IoFailure
      ensures r.Failure? ==>
        || (manifest == old(manifest) && postings == old(postings))
        || WithNewEntry(old(manifest), manifest, Postings(old(manifest.buildSeq)))
    {
      hide BundleOk, ReaderOk, TreeReaderOk, NamedKept, IndexFileOk, TreeFileOk, ReaderLoaded, LoadedFrom, Agrees, SameIndexes, UpToDate;
      var build := manifest.buildSeq;
      var staging, name := PostingsStaging(build), Postings(build);
      NextNamesFree();
      RemoveFile(staging);
      RemoveFile(name);
      var staged := StagePostings(staging);
      if !staged {
        RemoveFile(staging);
        return Failure(IoFailure);
      }
      var renamed := RenameFile(staging, name);
      if !renamed {
        RemoveFile(staging);
        return Failure(IoFailure);
      }
      var live := OpenReader(name);
      if live == null {
        RemoveFile(name);
        return Failure(IoFailure);
      }
      var previous := manifest.postings;
      var outcome := PublishReader(live, name);
      if outcome.NotPublished? {
        RemoveFile(name);
        return Failure(IoFailure);
      }
      if outcome.PublishedNotDurable? {
        return Failure(IoFailure);
      }
      if previous.Some? && previous.value.build != build {
        RemoveFile(Postings(previous.value.build));
      }
      return Success;
    }

    /** opening_tree_index::build into a staging file, with the postings' summaries as child counts, followed by the trial open. */
    method StageTree(staging: Name) returns (ok: bool)
      requires Valid() && connected && postings != null && staging.TreeStaging? && (disk.Crashed() || !Named(Some(manifest), staging))
      requires !disk.Crashed() ==> UpToDate(postings, config.rules, disk.games)
      modifies disk`files, disk`steps
      ensures Valid() && disk.steps <= old(disk.steps)
      ensures ok && !disk.Crashed() ==> staging in disk.files && TreeFileOk(disk.files[staging], config.rules, disk.games)
    {
      hide BundleOk, ReaderOk, TreeReaderOk, NamedKept, IndexesStore, IndexesTree, ValidStore, StreamVisits, Acceptable, IndexOf, Directory;
      GamesAreOk(disk.files, disk.manifest, disk.games, config);
      var failed: bool := *;
      if failed {
        return false;
      }
      var stream := ChildCountStream(postings, true);
      if !disk.Crashed() {
        SummariesAreVisits(postings.artifact.value, config.rules, disk.games);
      }
      var built := BuildTree(config.rules, disk.games, MAX_ROOT_PLY, SPILL_THRESHOLD, MEMORY_LIMIT, stream);
      if built.Err? {
        return false;
      }
      ok := PutFile(staging, TreeBytes(built.value));
      if !ok {
        return false;
      }
      var staged := OpenTreeFile(staging);
      return staged.Some?;
    }

    /** A tree index on a file, if it opens. */
    method OpenTreeFile(name: Name) returns (loaded: Option<LiveTree>)
      ensures loaded.Some? ==> name in disk.files && disk.files[name] == TreeBytes(loaded.value.file)
      ensures loaded.Some? ==> LoadedFrom(loaded.value.index, loaded.value.file, StartHash(config.rules))
    {
      hide TreeAcceptable, Indexes, StartHash;
      var failed: bool := *;
      if failed || name !in disk.files || !disk.files[name].TreeBytes? {
        return None;
      }
      var file := disk.files[name].bytes;
      var index := OpenTree(file, StartHash(config.rules));
      LoadedIs(index, file, StartHash(config.rules));
      return if index.Ok? then Some(LiveTree(index.value, file)) else None;
    }

    /** Publishes a tree file and, if the manifest names it, installs its index. */
    method PublishTree(live: LiveTree, name: Name) returns (outcome: WriteOutcome)
      requires Valid() && connected && name == Tree(manifest.buildSeq)
      requires LoadedFrom(live.index, live.file, StartHash(config.rules))
      requires !disk.Crashed() ==>
        name in disk.files && disk.files[name] == TreeBytes(live.file) && TreeFileOk(disk.files[name], config.rules, disk.games)
      modifies `manifest, `tree, disk`manifest, disk`steps
      ensures Valid() && disk.steps <= old(disk.steps)
      ensures outcome.NotPublished? ==> manifest == old(manifest) && tree == old(tree)
      ensures !outcome.NotPublished? ==> WithNewEntry(old(manifest), manifest, name) && tree == Some(live)
    {
      hide BundleOk, ReaderOk, NamedKept, IndexFileOk, TreeFileOk, ReaderLoaded, LoadedFrom, StartHash;
      outcome := Publish(name);
      if !outcome.NotPublished? {
        if !disk.Crashed() && postings != null {
          ReaderSame(postings, disk.files, old(manifest), manifest);
        }
        tree := Some(live);
      }
    }

    /** rebuild_opening_tree_index: only from valid postings, and with the same staging and publication steps. */
    method RebuildOpeningTreeIndex() returns (r: Status)
      requires Valid() && connected
      modifies `manifest, `tree, disk`files, disk`manifest, disk`steps
      ensures Valid() && disk.steps <= old(disk.steps)
      ensures r.Success? ==> WithNewEntry(old(manifest), manifest, Tree(old(manifest.buildSeq))) && tree.Some? && postings != null
      ensures r.Failure? ==>
        || (manifest == old(manifest) && tree == old(tree))
        || WithNewEntry(old(manifest), manifest, Tree(old(manifest.buildSeq)))
    {
      hide BundleOk, ReaderOk, TreeReaderOk, NamedKept, IndexFileOk, TreeFileOk, ReaderLoaded, Agrees, SameIndexes, LoadedFrom, StartHash, UpToDate;
      var valid := PostingsValid();
      if !valid {
        return Failure(InvalidArgument);
      }
      var build := manifest.buildSeq;
      var staging, name := TreeStaging(build), Tree(build);
      NextNamesFree();
      RemoveFile(staging);
      RemoveFile(name);
      RevalidatePostings();
      var staged := StageTree(staging);
      if !staged {
        RemoveFile(staging);
        return Failure(IoFailure);
      }
      var renamed := RenameFile(staging, name);
      if !renamed {
        RemoveFile(staging);
        return Failure(IoFailure);
      }
      var live := OpenTreeFile(name);
      if live.None? {
        RemoveFile(name);
        return Failure(IoFailure);
      }
      var previous := manifest.tree;
      var outcome := PublishTree(live.value, name);
      if outcome.NotPublished? {
        RemoveFile(name);
        return Failure(IoFailure);
      }
      if outcome.PublishedNotDurable? {
        return Failure(IoFailure);
      }
      if previous.Some? && previous.value.build != build {
        RemoveFile(Tree(previous.value.build));
      }
      return Success;
    }

    // Lifecycle.

    /** Changes informational fields only. */
    method SetManifest(m: Manifest)
      requires Valid() && connected && SameIndexes(m, manifest)
      modifies `manifest
      ensures Valid() && manifest == m
    {
      hide BundleOk, ReaderOk, TreeReaderOk, ReaderLoaded, LoadedFrom;
      if !disk.Crashed() {
        if postings != null {
          ReaderSame(postings, disk.files, manifest, m);
        }
        if tree.Some? {
          TreeReaderSame(tree.value, disk.files, manifest, m, config.rules);
        }
      }
      manifest := m;
    }

    /** close: records the clean state if it can, then lets go of everything. */
    method Close()
      requires Valid()
      modifies this, disk`manifest, disk`steps
      ensures Valid() && !connected && postings == null && tree.None? && disk.steps <= old(disk.steps)
    {
      hide BundleOk, ReaderOk, TreeReaderOk, UpToDate, AllStorable, ReaderLoaded, LoadedFrom;
      if connected {
        SetManifest(manifest.(gameCount := |disk.games|));
        var covered := PostingsValid();
        if covered {
          SetManifest(manifest.(dirty := false));
        }
        if !disk.Crashed() {
          SameBundle(disk.files, disk.manifest.value, manifest, disk.games, config);
        }
        var ignored := disk.WriteManifest(manifest);
      }
      connected, postings, tree := false, null, None;
    }

    /** The last step of create() and open(): the session is recorded as in use. */
    method MarkInUse() returns (r: Status)
      requires Valid() && connected
      modifies this, disk`manifest, disk`steps
      ensures Valid() && disk.steps <= old(disk.steps)
      ensures if r.Success? then connected && postings == old(postings) else !connected
    {
      hide BundleOk, ReaderOk, TreeReaderOk, ReaderLoaded, LoadedFrom;
      SetManifest(manifest.(dirty := true));
      if !disk.Crashed() {
        SameBundle(disk.files, disk.manifest.value, manifest, disk.games, config);
      }
      var outcome := disk.WriteManifest(manifest);
      if !outcome.PublishedDurably? {
        Close();
        return Failure(IoFailure);
      }
      return Success;
    }

    /** create, without the removal of a half-created bundle. */
    method Create() returns (r: Status)
      requires Valid() && !connected
      modifies this, disk
      ensures Valid() && disk.steps <= old(disk.steps)
      ensures r.Success? && !disk.Crashed() ==> disk.games == []
      ensures if r.Success? then connected && postings != null else !connected
    {
      hide BundleOk, ReaderOk, TreeReaderOk, ReaderLoaded, LoadedFrom, UpToDate, GamesOk, ValidStore, AllElosOk, MovesFit;
      if disk.hasDatabase {
        return Failure(IoFailure);
      }
      var created := disk.CreateDatabase();
      if !created {
        return Failure(IoFailure);
      }
      var fresh_ := FreshManifest();
      GamesAreOk(disk.files, disk.manifest, disk.games, config);
      EntriesGone(disk.files, fresh_, disk.games, config);
      var outcome := disk.WriteManifest(fresh_);
      if !outcome.PublishedDurably? {
        return Failure(IoFailure);
      }
      connected, manifest, postings, tree := true, fresh_, null, None;
      var rebuilt := RebuildPositionPostings();
      if rebuilt.Failure? {
        Close();
        return rebuilt;
      }
      r := MarkInUse();
    }

    /** open: readers for the intact files the manifest names; missing or stale postings are rebuilt from the games. */
    method Open() returns (r: Status)
      requires Valid() && !connected
      modifies this, disk
      ensures Valid() && disk.steps <= old(disk.steps) && disk.games == old(disk.games)
      ensures if r.Success? then connected && postings != null else !connected
      ensures r.Success? && !disk.Crashed() ==> Covered()
    {
      hide BundleOk, ReaderOk, TreeReaderOk, ReaderLoaded, LoadedFrom, UpToDate, AllStorable;
      if !disk.hasDatabase || disk.manifest.None? {
        return Failure(NotFound);
      }
      var failed: bool := *;  // the lock, SQLite or reading the manifest may fail
      if failed {
        return Failure(IoFailure);
      }
      LoadReaders(disk.manifest.value);
      var covered := PostingsValid();
      if !covered {
        var rebuilt := RebuildPositionPostings();
        if rebuilt.Failure? {
          Close();
          return rebuilt;
        }
      }
      r := MarkInUse();
    }

    /** The checksum-verified readers of a manifest. */
    method LoadReaders(m: Manifest)
      requires disk.Ok() && disk.config == config && disk.manifest == Some(m)
      modifies this
      ensures Valid() && connected && manifest == m
    {
      hide BundleOk, ReaderLoaded, LoadedFrom;
      connected, manifest, postings, tree := true, m, null, None;
      if m.postings.Some? && Matches(disk.files, Postings(m.postings.value.build), m.postings.value, config) {
        postings := OpenReader(Postings(m.postings.value.build));
      }
      if m.tree.Some? && Matches(disk.files, Tree(m.tree.value.build), m.tree.value, config) {
        tree := OpenTreeFile(Tree(m.tree.value.build));
      }
    }

    // Mutations of the games.

    /** Every mutation first makes the manifest forget the derived indexes; a failed mutation leaves them forgotten. */
    method Mutate(changed: seq<StoredGame>) returns (r: Status)
      requires Valid() && connected && GamesOk(changed)
      modifies `manifest, `postings, `tree, disk
      ensures Valid() && disk.steps <= old(disk.steps)
      ensures r.Success? && !disk.Crashed() ==> disk.games == changed && Stale()
      ensures r.Failure? && !disk.Crashed() ==> disk.games == old(disk.games)
    {
      hide BundleOk, NamedKept, ReaderOk, TreeReaderOk, GamesOk;
      var prepared := PrepareCanonicalMutation();
      if prepared.Failure? {
        return prepared;
      }
      r := CommitGames(changed);
    }

    /** One committed transaction while no derived index is named. */
    method CommitGames(changed: seq<StoredGame>) returns (r: Status)
      requires Valid() && connected && GamesOk(changed) && (!disk.Crashed() ==> Stale())
      modifies disk`games, disk`steps
      ensures Valid() && disk.steps <= old(disk.steps) && (!disk.Crashed() ==> Stale())
      ensures !disk.Crashed() ==> disk.games == if r.Success? then changed else old(disk.games)
    {
      hide BundleOk, NamedKept, ReaderOk, TreeReaderOk, GamesOk;
      if !disk.Crashed() {
        EntriesGone(disk.files, disk.manifest.value, changed, config);
      }
      var ok := disk.Commit(changed);
      return if ok then Success else Failure(IoFailure);
    }

    method InsertGame(g: StoredGame) returns (r: Status)
      requires Valid() && -1 <= g.result <= 1 && ElosOk(g) && MovesFit([g])
      modifies `manifest, `postings, `tree, disk
      ensures Valid() && disk.steps <= old(disk.steps)
      ensures r.Success? && !disk.Crashed() ==> AreAppended(disk.games, old(disk.games), [g]) && Stale()
      ensures r.Failure? && !disk.Crashed() ==> disk.games == old(disk.games)
    {
      hide BundleOk, NamedKept, ReaderOk, TreeReaderOk, ReaderLoaded, LoadedFrom;
      if !connected {
        return Failure(IoFailure);
      }
      if NextId(disk.games) > U32_MAX {
        return Failure(IoFailure);
      }
      GamesAreOk(disk.files, disk.manifest, disk.games, config);
      InsertedOk(disk.games, g);
      OneAppended(disk.games, g);
      r := Mutate(disk.games + [g.(id := NextId(disk.games))]);
    }

    method RemoveGame(id: nat) returns (r: Status)
      requires Valid()
      modifies `manifest, `postings, `tree, disk
      ensures Valid() && disk.steps <= old(disk.steps)
      ensures r.Success? && !disk.Crashed() ==> (exists g :: g in old(disk.games) && g.id == id) && AreRest(disk.games, old(disk.games), {id}) && Stale()
      ensures r.Failure? && !disk.Crashed() ==> disk.games == old(disk.games)
    {
      hide BundleOk, NamedKept, ReaderOk, TreeReaderOk, ReaderLoaded, LoadedFrom, GamesOk;
      if !connected {
        return Failure(IoFailure);
      }
      GamesAreOk(disk.files, disk.manifest, disk.games, config);
      RemovedOk(disk.games, {id});
      WithoutIs(disk.games, {id});
      SomeRemoved(disk.games, id);
      var remaining := Without(disk.games, {id});
      if |remaining| == |disk.games| {
        // the indexes are given up before the store reports that there is no such game
        var prepared := PrepareCanonicalMutation();
        return if prepared.Failure? then prepared else Failure(NotFound);
      }
      r := Mutate(remaining);
    }

    /** patch_game_metadata: only changes that the indexes store invalidate them. */
    method PatchGame(id: nat, result: Option<int>, whiteElo: Option<int>, blackElo: Option<int>) returns (r: Status)
      requires Valid() && (result.Some? ==> -1 <= result.value <= 1)
      requires (whiteElo.Some? ==> whiteElo.value >= 0) && (blackElo.Some? ==> blackElo.value >= 0)
      modifies `manifest, `postings, `tree, disk
      ensures Valid() && disk.steps <= old(disk.steps)
      ensures r.Success? && !disk.Crashed() ==> ArePatched(disk.games, old(disk.games), id, result, whiteElo, blackElo)
      ensures r.Failure? && !disk.Crashed() ==> disk.games == old(disk.games)
      ensures result.None? && whiteElo.None? && blackElo.None? ==> manifest == old(manifest) && postings == old(postings) && tree == old(tree)
    {
      hide BundleOk, NamedKept, ReaderOk, TreeReaderOk, ReaderLoaded, LoadedFrom, GamesOk;
      if !connected {
        return Failure(IoFailure);
      }
      if (whiteElo.Some? && !IsInt16(whiteElo.value)) || (blackElo.Some? && !IsInt16(blackElo.value)) {
        return Failure(IoFailure);
      }
      if result.None? && whiteElo.None? && blackElo.None? {
        var changed: bool := *;  // text fields that no index stores
        return if changed then Success else Failure(NotEditable);
      }
      var prepared := PrepareCanonicalMutation();
      if prepared.Failure? {
        return prepared;
      }
      var editable: bool := *;
      if !editable {
        return Failure(NotEditable);
      }
      GamesAreOk(disk.files, disk.manifest, disk.games, config);
      PatchedOk(disk.games, id, result, whiteElo, blackElo);
      r := CommitGames(Patched(disk.games, id, result, whiteElo, blackElo));
    }

    // Imports.

    /**
     * The writer's deduplicate() on the store: exact duplicates disappear in one transaction. A resumption runs it before the derived
     * indexes are given up, so the manifest may go on naming the indexes of more games than there are.
     */
    method Reconcile(duplicates: set<nat>) returns (r: Status)
      requires Valid()
      modifies disk`games, disk`steps
      ensures Valid() && disk.steps <= old(disk.steps)
      ensures !disk.Crashed() ==> if r.Success? then AreRest(disk.games, old(disk.games), duplicates) else disk.games == old(disk.games)
    {
      hide BundleOk, NamedKept, ReaderOk, TreeReaderOk, ReaderLoaded, LoadedFrom, GamesOk, Remain;
      if !connected {
        return Failure(IoFailure);
      }
      GamesAreOk(disk.files, disk.manifest, disk.games, config);
      RemovedOk(disk.games, duplicates);
      WithoutIs(disk.games, duplicates);
      GamesRemoved(disk.files, disk.manifest, disk.games, Without(disk.games, duplicates), config);
      var ok := disk.Commit(Without(disk.games, duplicates));
      return if ok then Success else Failure(IoFailure);
    }

    /** One batch of an import, in one transaction. */
    method AppendBatch(batch: seq<StoredGame>) returns (r: Status)
      requires Valid() && connected && BatchOk(batch) && (!disk.Crashed() ==> Stale())
      modifies disk`games, disk`steps
      ensures Valid() && disk.steps <= old(disk.steps) && (!disk.Crashed() ==> Stale())
      ensures !disk.Crashed() ==> if r.Success? then AreAppended(disk.games, old(disk.games), batch) else disk.games == old(disk.games)
    {
      hide BundleOk, NamedKept, ReaderOk, TreeReaderOk, ReaderLoaded, LoadedFrom, GamesOk, BatchOk;
      var more := Appended(disk.games, batch);
      if NextId(more) > U32_MAX + 1 {
        return Failure(IoFailure);
      }
      GamesAreOk(disk.files, disk.manifest, disk.games, config);
      AppendedOk(disk.games, batch);
      AppendedIs(disk.games, batch);
      r := CommitGames(more);
    }

    /**
     * run_from: the derived indexes are given up before the first batch; a raw import reconciles whatever way it ends; an import that is
     * not stopped rebuilds the indexes it is configured to build.
     */
    method Import(raw: bool, batches: seq<seq<StoredGame>>, duplicates: set<nat>, buildPostings: bool, buildTree: bool)
      returns (r: Status, taken: nat, stopped: bool)
      requires Valid() && forall i :: 0 <= i < |batches| ==> BatchOk(batches[i])
      modifies `manifest, `postings, `tree, disk
      ensures Valid() && disk.steps <= old(disk.steps)
      ensures taken <= |batches| && (r.Success? && !stopped ==> taken == |batches|)
      ensures !disk.Crashed() ==> exists all ::
        && AreAppended(all, old(disk.games), Flat(batches[..taken]))
        && (if r.Success? && raw then AreRest(disk.games, all, duplicates) else disk.games == all || (raw && AreRest(disk.games, all, duplicates)))
      ensures r.Success? && !stopped && buildPostings && !disk.Crashed() ==> Covered()
    {
      hide BundleOk, NamedKept, ReaderOk, TreeReaderOk, ReaderLoaded, LoadedFrom, GamesOk, BatchOk, UpToDate, Without, AreAppended, AreRest, SameIndexes;
      ghost var before := disk.games;
      NothingAppended(before);
      assert batches[..0] == [];
      taken, stopped := 0, false;
      if !connected {
        return Failure(IoFailure), 0, false;
      }
      r := PrepareCanonicalMutation();
      if r.Failure? {
        return;
      }
      while taken < |batches| && !stopped
        invariant Valid() && disk.steps <= old(disk.steps) && taken <= |batches|
        invariant !disk.Crashed() ==> Stale() && AreAppended(disk.games, before, Flat(batches[..taken]))
        invariant r.Success?
        decreases |batches| - taken, !stopped
      {
        var stop: bool := *;
        if stop {
          stopped := true;
        } else {
          ghost var appended := disk.games;
          r := AppendBatch(batches[taken]);
          if r.Failure? {
            if raw {
              var ignored := Reconcile(duplicates);
            }
            return;
          }
          assert batches[..taken + 1][..taken] == batches[..taken];
          if !disk.Crashed() {
            AppendedAfter(disk.games, appended, before, Flat(batches[..taken]), batches[taken]);
          }
          taken := taken + 1;
        }
      }
      if raw {
        r := Reconcile(duplicates);
        if r.Failure? {
          return;
        }
      }
      var lateStop: bool := *;
      if stopped || lateStop {
        return Success, taken, true;
      }
      if buildPostings {
        r := RebuildPositionPostings();
        if r.Failure? {
          return;
        }
      }
      if buildTree {
        r := RebuildOpeningTreeIndex();
      }
    }

    // Queries.

    method QueryPositionMatches(hash: nat, limit: nat, skip: nat) returns (r: Result<seq<Match>>)
      requires Valid()
      ensures r.Ok? && !disk.Crashed() ==> MatchesNow(r.value, config.rules, disk.games, hash, limit, skip)
      ensures connected && !disk.Crashed() ==> (r.Ok? <==> postings != null && postings.indexedGameCount == |disk.games|)
    {
      hide BundleOk, ReaderOk, TreeReaderOk, UpToDate, AllStorable, Acceptable, IndexOf, LoadedFrom, OccurrencesAnswer, MatchesNow;
      if !connected {
        return Err(IoFailure);
      }
      var valid := PostingsValid();
      if !valid {
        return Err(IoFailure);
      }
      r := postings.Occurrences(hash, limit, skip);
      if !disk.Crashed() {
        GamesAreOk(disk.files, disk.manifest, disk.games, config);
        AnswerIsCurrent(postings, config.rules, disk.games, hash, limit, skip);
      }
    }

    /** `unread` says that the summary of the position could not be read. */
    method QueryUnfilteredOpeningStats(hash: nat) returns (r: Result<seq<StatRow>>, unread: bool)
      requires Valid()
      ensures r.Ok? && !unread && !disk.Crashed() ==> StatsOfPlay(r.value, config.rules, None, disk.games, disk.games, hash)
      ensures unread ==> r == Ok([]) && (StatsOfPlay([], config.rules, None, disk.games, disk.games, hash) <==> !PlaysOn(config.rules, disk.games, hash))
      ensures connected && !disk.Crashed() ==> (r.Ok? <==> postings != null && postings.indexedGameCount == |disk.games|)
    {
      hide BundleOk, ReaderOk, UpToDate, AllStorable, ReaderLoaded, LoadedFrom, StatsOfPlay, PlaysOn, IndexesTree, ValidStore, AllElosOk;
      if !connected {
        return Err(IoFailure), false;
      }
      var valid := PostingsValid();
      if !valid || disk.Crashed() {
        return Err(IoFailure), false;
      }
      var treeValid := tree.Some? && manifest.tree.Some? && HasValidIndex(manifest.tree.value);
      GamesAreOk(disk.files, disk.manifest, disk.games, config);
      if treeValid && tree.value.index.sourceGameCount == |disk.games| {
        TreeIsUpToDate(tree.value, disk.files, disk.manifest.value, manifest, disk.games, config);
      }
      var summaryFails: bool := *;
      r, unread := QueryUnfiltered(config.rules, disk.games, postings, valid, tree, treeValid, hash, summaryFails, MAX_ROOT_PLY);
    }

    method FindGames(hash: nat, f: GameSearch.Filter) returns (r: Result<GameSearch.GameList>)
      requires Valid() && GameSearch.FilterOk(f)
      ensures r.Ok? && !disk.Crashed() ==> GameSearch.IsPage(r.value, config.rules, disk.games, hash, f)
      ensures connected && !disk.Crashed() ==>
        (r.Ok? <==>
          && postings != null && postings.indexedGameCount == |disk.games|
          && !((f.hasMetadata || !f.byId) && f.offset > GameSearch.SQLITE_MAX && exists g :: g in disk.games && Visits(config.rules, g, hash)))
    {
      hide BundleOk, ReaderOk, TreeReaderOk, UpToDate, AllStorable, ReaderLoaded, LoadedFrom, GameSearch.IsPage, GameSearch.PositionPage, ValidStore;
      if !connected {
        return Err(IoFailure);
      }
      var valid := PostingsValid();
      if !valid || disk.Crashed() {
        return Err(IoFailure);
      }
      GamesAreOk(disk.files, disk.manifest, disk.games, config);
      r := GameSearch.FindGames(config.rules, disk.games, postings, valid, hash, f);
    }

    method QueryEloDistribution(hash: nat, f: GameSearch.Filter, width: int) returns (r: Result<seq<EloDistribution.EloRow>>)
      requires Valid() && GameSearch.FilterOk(f)
      ensures r.Ok? ==> width > 0
      ensures connected && !disk.Crashed() && width > 0 ==> (r.Ok? <==> postings != null && postings.indexedGameCount == |disk.games|)
      ensures r.Ok? && !disk.Crashed() ==>
        EloDistribution.IsDistribution(r.value, config.rules, (set g | g in disk.games && f.matches(g)), hash, width)
    {
      hide BundleOk, ReaderOk, TreeReaderOk, UpToDate, AllStorable, ReaderLoaded, LoadedFrom, EloDistribution.IsDistribution, ValidStore;
      if !connected {
        return Err(IoFailure);
      }
      if width <= 0 {
        return Err(InvalidArgument);
      }
      var valid := PostingsValid();
      if !valid || disk.Crashed() {
        return Err(IoFailure);
      }
      GamesAreOk(disk.files, disk.manifest, disk.games, config);
      r := EloDistribution.QueryDistribution(config.rules, disk.games, postings, valid, hash, f, width);
    }

    /** A reader that covers the games stays up to date as long as the process lives and nothing invalidates it. */
    lemma RevalidatePostings()
      requires Valid() && connected && postings != null && postings.indexedGameCount == |disk.games|
      ensures !disk.Crashed() ==> UpToDate(postings, config.rules, disk.games) && AllStorable(disk.games)
    {
      hide BundleOk, ReaderOk, TreeReaderOk, UpToDate, AllStorable, ReaderLoaded, LoadedFrom;
      if !disk.Crashed() {
        ReaderIsUpToDate(postings, disk.files, disk.manifest.value, manifest, disk.games, config);
      }
    }
  }

  function NextId(games: seq<StoredGame>): nat {
    if games == [] then 1 else games[|games| - 1].id + 1
  }

  lemma InsertedOk(games: seq<StoredGame>, g: StoredGame)
    requires GamesOk(games) && -1 <= g.result <= 1 && ElosOk(g) && MovesFit([g]) && NextId(games) <= U32_MAX
    ensures GamesOk(games + [g.(id := NextId(games))])
  {
    assert [g][0] == g;
  }

  function Without(games: seq<StoredGame>, ids: set<nat>): seq<StoredGame> {
    if games == [] then []
    else Without(games[..|games| - 1], ids) + if games[|games| - 1].id in ids then [] else [games[|games| - 1]]
  }

  /** Exactly the games with other ids, by ascending id as before. */
  ghost predicate AreRest(rest: seq<StoredGame>, games: seq<StoredGame>, ids: set<nat>) {
    && (forall i, j :: 0 <= i < j < |rest| ==> rest[i].id < rest[j].id)
    && (forall g :: g in rest <==> g in games && g.id !in ids)
  }

  lemma {:induction false} WithoutHas(games: seq<StoredGame>, ids: set<nat>, i: nat)
    requires i < |games| && games[i].id !in ids
    ensures games[i] in Without(games, ids)
    decreases |games|
  {
    if i < |games| - 1 {
      WithoutHas(games[..|games| - 1], ids, i);
    }
  }

  lemma WithoutIs(games: seq<StoredGame>, ids: set<nat>)
    requires GamesOk(games)
    ensures AreRest(Without(games, ids), games, ids)
  {
    hide MovesFit, AllElosOk;
    RemovedOk(games, ids);
    forall g
      ensures g in Without(games, ids) <==> g in games && g.id !in ids
    {
      if g in Without(games, ids) {
        WithoutSubset(games, ids, g);
      }
      if g in games && g.id !in ids {
        var i :| 0 <= i < |games| && games[i] == g;
        WithoutHas(games, ids, i);
      }
    }
  }

  /** If the list gets shorter, some game had the id. */
  lemma {:induction false} SomeRemoved(games: seq<StoredGame>, id: nat)
    ensures |Without(games, {id})| != |games| ==> exists g :: g in games && g.id == id
  {
    if games != [] {
      SomeRemoved(games[..|games| - 1], id);
      assert games[|games| - 1] in games;
    }
  }

  lemma {:induction false} WithoutSubset(games: seq<StoredGame>, ids: set<nat>, g: StoredGame)
    requires g in Without(games, ids)
    ensures g in games && g.id !in ids
  {
    if games[|games| - 1] != g || g.id in ids {
      WithoutSubset(games[..|games| - 1], ids, g);
    }
  }

  lemma FrontIds(games: seq<StoredGame>, g: StoredGame)
    requires GamesOk(games) && games != [] && g in games[..|games| - 1]
    ensures g.id < games[|games| - 1].id
  {
    var j :| 0 <= j < |games| - 1 && games[..|games| - 1][j] == g;
    assert games[j] == g;
  }

  lemma OneMoreGame(games: seq<StoredGame>, last: StoredGame)
    requires GamesOk(games) && 0 < last.id <= U32_MAX && -1 <= last.result <= 1 && ElosOk(last) && MovesFit([last])
    requires forall i :: 0 <= i < |games| ==> games[i].id < last.id
    ensures GamesOk(games + [last])
  {
  }

  lemma SplitGames(games: seq<StoredGame>)
    requires GamesOk(games) && games != []
    ensures GamesOk(games[..|games| - 1])
    ensures var last := games[|games| - 1]; 0 < last.id <= U32_MAX && -1 <= last.result <= 1 && ElosOk(last) && MovesFit([last])
  {
  }

  lemma {:induction false} RemovedOk(games: seq<StoredGame>, ids: set<nat>)
    requires GamesOk(games)
    ensures GamesOk(Without(games, ids)) && Remain(Without(games, ids), games)
  {
    if games != [] {
      hide GamesOk, ElosOk;
      var front, last := games[..|games| - 1], games[|games| - 1];
      SplitGames(games);
      RemovedOk(front, ids);
      var rest := Without(front, ids);
      forall i | 0 <= i < |rest|
        ensures rest[i].id < last.id && rest[i] in games
      {
        assert rest[i] in rest;
        WithoutSubset(front, ids, rest[i]);
        FrontIds(games, rest[i]);
      }
      OneMoreGame(rest, last);
      assert rest + [] == rest;
    }
  }

  /** A batch of imported games, numbered by the store. */
  function Appended(games: seq<StoredGame>, batch: seq<StoredGame>): seq<StoredGame> {
    if batch == [] then games
    else
      var front := Appended(games, batch[..|batch| - 1]);
      front + [batch[|batch| - 1].(id := NextId(front))]
  }

  /** The old games, and behind them the new ones, numbered on from the last id. */
  predicate AreAppended(all: seq<StoredGame>, games: seq<StoredGame>, added: seq<StoredGame>) {
    && |all| == |games| + |added| && all[..|games|] == games
    && forall k :: 0 <= k < |added| ==> all[|games| + k] == added[k].(id := (if games == [] then 0 else games[|games| - 1].id) + k + 1)
  }

  lemma {:induction false} AppendedIs(games: seq<StoredGame>, batch: seq<StoredGame>)
    ensures AreAppended(Appended(games, batch), games, batch)
  {
    if batch != [] {
      var front := Appended(games, batch[..|batch| - 1]);
      AppendedIs(games, batch[..|batch| - 1]);
      assert front != [] ==> NextId(front) == (if games == [] then 0 else games[|games| - 1].id) + |batch|;
    }
  }

  lemma OneAppended(games: seq<StoredGame>, g: StoredGame)
    ensures AreAppended(games + [g.(id := NextId(games))], games, [g])
  {
  }

  lemma NothingAppended(games: seq<StoredGame>)
    ensures AreAppended(games, games, Flat([]))
  {
  }

  lemma AppendedAfter(all: seq<StoredGame>, middle: seq<StoredGame>, games: seq<StoredGame>, first: seq<StoredGame>, second: seq<StoredGame>)
    requires AreAppended(middle, games, first) && AreAppended(all, middle, second)
    ensures AreAppended(all, games, first + second)
  {
    var added := first + second;
    assert forall i :: 0 <= i < |middle| ==> all[i] == all[..|middle|][i];
    var last := if games == [] then 0 else games[|games| - 1].id;
    if first == [] {
      assert middle == middle[..|games|];
    } else {
      var n := |first| - 1;
      assert middle[|games| + n] == first[n].(id := last + n + 1);
    }
    assert (if middle == [] then 0 else middle[|middle| - 1].id) == last + |first|;
    forall k | 0 <= k < |added|
      ensures all[|games| + k] == added[k].(id := last + k + 1)
    {
      if k >= |first| {
        var j := k - |first|;
        assert all[|middle| + j] == second[j].(id := last + |first| + j + 1);
      }
    }
    assert all[..|games|] == middle[..|games|];
  }

  /** The games of some batches, one after the other. */
  function Flat(batches: seq<seq<StoredGame>>): seq<StoredGame> {
    if batches == [] then [] else Flat(batches[..|batches| - 1]) + batches[|batches| - 1]
  }

  /** What the preparation stage delivers: decoded results and Elos in range. */
  ghost predicate BatchOk(batch: seq<StoredGame>) {
    forall i :: 0 <= i < |batch| ==> -1 <= batch[i].result <= 1 && ElosOk(batch[i]) && MovesFit([batch[i]])
  }

  lemma {:induction false} AppendedOk(games: seq<StoredGame>, batch: seq<StoredGame>)
    requires GamesOk(games) && BatchOk(batch) && NextId(Appended(games, batch)) <= U32_MAX + 1
    ensures GamesOk(Appended(games, batch))
  {
    hide GamesOk, ElosOk;
    if batch != [] {
      var front := batch[..|batch| - 1];
      AppendedOk(games, front);
      InsertedOk(Appended(games, front), batch[|batch| - 1]);
    }
  }

  function PatchedGame(g: StoredGame, result: Option<int>, whiteElo: Option<int>, blackElo: Option<int>): StoredGame {
    g.(result := if result.Some? then result.value else g.result,
       whiteElo := if whiteElo.Some? then whiteElo else g.whiteElo,
       blackElo := if blackElo.Some? then blackElo else g.blackElo)
  }

  function Patched(games: seq<StoredGame>, id: nat, result: Option<int>, whiteElo: Option<int>, blackElo: Option<int>): (r: seq<StoredGame>)
    ensures |r| == |games|
  {
    seq(|games|, i requires 0 <= i < |games| =>
      if games[i].id == id then PatchedGame(games[i], result, whiteElo, blackElo) else games[i])
  }

  lemma PatchedOk(games: seq<StoredGame>, id: nat, result: Option<int>, whiteElo: Option<int>, blackElo: Option<int>)
    requires GamesOk(games) && (result.Some? ==> -1 <= result.value <= 1)
    requires (whiteElo.Some? ==> 0 <= whiteElo.value && IsInt16(whiteElo.value)) && (blackElo.Some? ==> 0 <= blackElo.value && IsInt16(blackElo.value))
    ensures GamesOk(Patched(games, id, result, whiteElo, blackElo))
  {
  }

  /** The game of the id has the given result and Elos, where given; nothing else changes. */
  predicate ArePatched(after: seq<StoredGame>, before: seq<StoredGame>, id: nat, result: Option<int>, whiteElo: Option<int>, blackElo: Option<int>) {
    && |after| == |before|
    && forall i :: 0 <= i < |before| ==>
      && after[i].id == before[i].id && after[i].moves == before[i].moves
      && after[i].result == (if before[i].id == id && result.Some? then result.value else before[i].result)
      && after[i].whiteElo == (if before[i].id == id && whiteElo.Some? then whiteElo else before[i].whiteElo)
      && after[i].blackElo == (if before[i].id == id && blackElo.Some? then blackElo else before[i].blackElo)
  }

  predicate MatchesAscend(all: seq<Match>) {
    forall i, j :: 0 <= i < j < |all| ==> all[i].id < all[j].id || (all[i].id == all[j].id && all[i].ply < all[j].ply)
  }

  /**
   * The requested slice of the one answer for the games now stored: every ply of every game at which the position stands, by game and
   * ply, with the game's result and Elos. A zero limit asks for everything.
   */
  ghost predicate MatchesNow(rows: seq<Match>, rules: Rules, games: seq<StoredGame>, hash: nat, limit: nat, skip: nat) {
    exists all ::
      MatchesAscend(all) && PostingsReplay.AllOccurrences(all, rules, games, hash) && PostingBlock.IsSlice(rows, all, skip, if limit == 0 then |all| else limit)
  }

  lemma AnswersAscend(all: seq<Match>, rules: Rules, games: seq<StoredGame>, hash: nat)
    requires Answers(all, StoreRecords(rules, games), StoreMetadata(games), hash)
    ensures MatchesAscend(all)
  {
    hide StoreRecords, StoreMetadata;
  }

  lemma AnswerIsCurrent(reader: PositionPostings, rules: Rules, games: seq<StoredGame>, hash: nat, limit: nat, skip: nat)
    requires UpToDate(reader, rules, games) && ValidStore(games)
    ensures Acceptable(reader.artifact.value)
    ensures
      var r := OccurrencesAnswer(reader.artifact.value, hash, limit, skip);
      r.Ok? && MatchesNow(r.value, rules, games, hash, limit, skip)
  {
    hide Acceptable, GroupsFor, Published, OccurrencesAnswer, PostingBlock.Page, Answers, StoreRecords, StoreMetadata, IndexOf, ValidStore, IndexesStore;
    hide PostingsReplay.AllOccurrences, MatchesAscend, PostingBlock.IsSlice;
    var gs := IndexGroups(reader.artifact.value, rules, games);
    var all := BuiltIndexAnswers(rules, games, gs, reader.artifact.value, hash);
    assert OccurrencesAnswer(reader.artifact.value, hash, limit, skip) == Ok(PostingBlock.Page(all, limit, skip));
    AnswersAreOccurrences(all, rules, games, hash);
    AnswersAscend(all, rules, games, hash);
    PostingBlock.PageIsSlice(all, limit, skip);
  }

  lemma TreeIsUpToDate(tree: LiveTree, files: map<Name, Content>, onDisk: Manifest, m: Manifest, games: seq<StoredGame>, config: Config)
    requires BundleOk(files, Some(onDisk), games, config) && SameIndexes(onDisk, m) && TreeReaderOk(tree, files, m, config.rules)
    requires tree.index.sourceGameCount == |games|
    ensures TreeOf(tree.index, tree.file, config.rules, MAX_ROOT_PLY, games)
  {
    hide IndexesMore, TreeIndexesMore, IndexesTree, GamesOk, LoadedFrom;
    LoadedCounts(tree.index, tree.file, StartHash(config.rules));
    CountedTreeIsCurrent(tree.file, config.rules, games);
  }

  lemma ReaderSame(reader: PositionPostings, files: map<Name, Content>, m: Manifest, m': Manifest)
    requires ReaderOk(reader, files, m) && m'.postings == m.postings
    ensures ReaderOk(reader, files, m')
  {
  }

  predicate WithNewEntry(before: Manifest, after: Manifest, name: Name) {
    && (name.Postings? || name.Tree?) && after.buildSeq == name.build + 1 && after.sourceGeneration == before.sourceGeneration
    && (if name.Postings? then after.postings.Some? && after.postings.value.build == name.build && after.tree == before.tree
        else after.tree.Some? && after.tree.value.build == name.build && after.postings == before.postings)
  }

  lemma Installed(reader: PositionPostings, files: map<Name, Content>, m: Manifest)
    requires m.postings.Some? && ReaderLoaded(reader) && Postings(m.postings.value.build) in files
    requires files[Postings(m.postings.value.build)] == PostingsBytes(reader.artifact.value)
    ensures ReaderOk(reader, files, m)
  {
  }

  lemma TreeReaderSame(tree: LiveTree, files: map<Name, Content>, m: Manifest, m': Manifest, rules: Rules)
    requires TreeReaderOk(tree, files, m, rules) && m'.tree == m.tree
    ensures TreeReaderOk(tree, files, m', rules)
  {
  }

  lemma LiveIsUpToDate(live: PositionPostings, content: Content, rules: Rules, games: seq<StoredGame>)
    requires ReaderLoaded(live) && content == PostingsBytes(live.artifact.value) && IndexFileOk(content, rules, games)
    ensures UpToDate(live, rules, games)
  {
    hide IndexesStore, AllStorable, Acceptable, IndexOf, StoredHeader;
  }

  lemma LoadedIs(r: Result<TreeIndex>, file: TreeFile, start: nat)
    requires r.Ok? ==>
      && TreeAcceptable(file, start)
      && Indexes(r.value.entries, file, ParseNodes(file, StoredNodeCount(file)).value.0)
      && r.value.sourceGameCount == StoredGameCount(file) && r.value.maxRootPly == StoredCap(file)
    ensures r.Ok? ==> LoadedFrom(r.value, file, start)
  {
    hide Indexes, NodesOk, ParseNodes;
  }

  lemma ReaderNamed(reader: PositionPostings, files: map<Name, Content>, m: Manifest)
    requires ReaderOk(reader, files, m)
    ensures m.postings.Some?
  {
  }

  lemma GamesAreOk(files: map<Name, Content>, manifest: Option<Manifest>, games: seq<StoredGame>, config: Config)
    requires BundleOk(files, manifest, games, config)
    ensures GamesOk(games) && ValidStore(games) && AllElosOk(games) && MovesFit(games)
  {
  }
}
