/** A database bundle on disk: the canonical games, the manifest, and generation-qualified derived index files. */
module Bundle {
  import opened Words
  import opened Chess
  import opened OpeningStats
  import opened OpeningTreeFile
  import opened OpeningTreeBuilder
  import opened PostingsBuild

  const SPILL_THRESHOLD: nat := 0x10_0000
  const MAX_ROOT_PLY: nat := 20
  const MEMORY_LIMIT: nat := 0x4000_0000

  /** File names carry the build sequence number; staging files are never named by a manifest. */
  datatype Name = Postings(build: nat) | Tree(build: nat) | PostingsStaging(build: nat) | TreeStaging(build: nat)

  datatype Content = PostingsBytes(bytes: seq<byte>) | TreeBytes(bytes: TreeFile)

  /** A manifest entry: which build, for which generation of the games, with which checksum. */
  datatype IndexEntry = IndexEntry(build: nat, sourceGeneration: nat, gameCount: nat, checksum: nat)

  datatype Manifest = Manifest(gameCount: nat, dirty: bool, sourceGeneration: nat, buildSeq: nat,
                               postings: Option<IndexEntry>, tree: Option<IndexEntry>)

  /** The game rules and the checksum, about which nothing is assumed. */
  datatype Config = Config(rules: Rules, digest: Content -> nat)

  datatype WriteOutcome = NotPublished | PublishedDurably | PublishedNotDurable

  function FreshManifest(): Manifest {
    Manifest(0, false, 0, 0, None, None)
  }

  predicate Named(manifest: Option<Manifest>, name: Name) {
    && manifest.Some?
    && ((manifest.value.postings.Some? && name == Postings(manifest.value.postings.value.build))
        || (manifest.value.tree.Some? && name == Tree(manifest.value.tree.value.build)))
  }

  /** The file an entry names is intact. */
  predicate Matches(files: map<Name, Content>, name: Name, e: IndexEntry, config: Config) {
    name in files && (config.digest)(files[name]) == e.checksum
  }

  ghost predicate GamesOk(games: seq<StoredGame>) {
    ValidStore(games) && AllElosOk(games) && MovesFit(games)
  }

  /** The games are what is left of the indexed ones: a reconciliation may have removed some under the entry. */
  predicate Remain(games: seq<StoredGame>, indexed: seq<StoredGame>) {
    forall i :: 0 <= i < |games| ==> games[i] in indexed
  }

  /** An index of stored games of which the present ones remain. */
  ghost predicate IndexesMore(file: seq<byte>, rules: Rules, games: seq<StoredGame>) {
    exists indexed :: GamesOk(indexed) && Remain(games, indexed) && IndexesStore(file, rules, indexed) && AllStorable(indexed)
  }

  ghost predicate TreeIndexesMore(file: TreeFile, rules: Rules, games: seq<StoredGame>) {
    exists indexed :: GamesOk(indexed) && Remain(games, indexed) && IndexesTree(file, rules, MAX_ROOT_PLY, indexed)
  }

  /** A published postings entry: an older build number, the current generation, and the index of the games now stored or of more. */
  ghost predicate PostingsEntryOk(files: map<Name, Content>, m: Manifest, games: seq<StoredGame>, config: Config) {
    m.postings.Some? ==>
      var e := m.postings.value;
      && e.build < m.buildSeq && e.sourceGeneration == m.sourceGeneration
      && Matches(files, Postings(e.build), e, config) && files[Postings(e.build)].PostingsBytes?
      && IndexesMore(files[Postings(e.build)].bytes, config.rules, games)
  }

  ghost predicate TreeEntryOk(files: map<Name, Content>, m: Manifest, games: seq<StoredGame>, config: Config) {
    m.tree.Some? ==>
      var e := m.tree.value;
      && e.build < m.buildSeq && e.sourceGeneration == m.sourceGeneration
      && Matches(files, Tree(e.build), e, config) && files[Tree(e.build)].TreeBytes?
      && TreeIndexesMore(files[Tree(e.build)].bytes, config.rules, games)
  }

  /** What holds on disk at every moment, in particular wherever a crash may strike. */
  ghost predicate BundleOk(files: map<Name, Content>, manifest: Option<Manifest>, games: seq<StoredGame>, config: Config) {
    && GamesOk(games)
    && (manifest.Some? ==> PostingsEntryOk(files, manifest.value, games, config) && TreeEntryOk(files, manifest.value, games, config))
  }

  /** Nothing the manifest names has changed. */
  predicate NamedKept(files: map<Name, Content>, files': map<Name, Content>, manifest: Option<Manifest>) {
    forall name :: name in files && Named(manifest, name) ==> name in files' && files'[name] == files[name]
  }

  /** Files the manifest does not name can change freely. */
  lemma UnnamedChange(files: map<Name, Content>, files': map<Name, Content>, manifest: Option<Manifest>, games: seq<StoredGame>, config: Config)
    requires BundleOk(files, manifest, games, config)
    requires NamedKept(files, files', manifest)
    ensures BundleOk(files', manifest, games, config)
  {
    hide IndexesMore, TreeIndexesMore, GamesOk;
  }

  /** Without entries the games can change freely. */
  lemma EntriesGone(files: map<Name, Content>, m: Manifest, games: seq<StoredGame>, config: Config)
    requires GamesOk(games) && m.postings.None? && m.tree.None?
    ensures BundleOk(files, Some(m), games, config)
  {
    hide GamesOk;
  }

  /** Games with smaller ids than the last indexed one remain of the ones before it. */
  lemma RemainBefore(games: seq<StoredGame>, indexed: seq<StoredGame>)
    requires indexed != [] && Remain(games, indexed)
    requires forall i :: 0 <= i < |games| ==> games[i].id < indexed[|indexed| - 1].id
    ensures Remain(games, indexed[..|indexed| - 1])
  {
    forall i | 0 <= i < |games|
      ensures games[i] in indexed[..|indexed| - 1]
    {
      var j :| 0 <= j < |indexed| && indexed[j] == games[i];
      assert indexed[..|indexed| - 1][j] == games[i];
    }
  }

  lemma StoreFront(games: seq<StoredGame>)
    requires ValidStore(games) && games != []
    ensures ValidStore(games[..|games| - 1])
    ensures forall i :: 0 <= i < |games| - 1 ==> games[i].id < games[|games| - 1].id
    ensures games == games[..|games| - 1] + [games[|games| - 1]]
  {
  }

  lemma FrontRemains(games: seq<StoredGame>, indexed: seq<StoredGame>)
    requires Remain(games, indexed) && games != []
    ensures Remain(games[..|games| - 1], indexed)
  {
  }

  /** The id of a remaining game is at most that of the last indexed one, and smaller unless they are the same game. */
  lemma RemainBelow(games: seq<StoredGame>, indexed: seq<StoredGame>)
    requires ValidStore(games) && ValidStore(indexed) && Remain(games, indexed) && games != []
    ensures indexed != []
    ensures games[|games| - 1] == indexed[|indexed| - 1] || forall i :: 0 <= i < |games| ==> games[i].id < indexed[|indexed| - 1].id
  {
    var last := games[|games| - 1];
    var j :| 0 <= j < |indexed| && indexed[j] == last;
    assert j < |indexed| - 1 ==> last.id < indexed[|indexed| - 1].id;
  }

  /** As many games as were indexed, all of them among the indexed ones: then they are the indexed ones. */
  lemma {:induction false} NoneRemoved(games: seq<StoredGame>, indexed: seq<StoredGame>)
    requires ValidStore(games) && ValidStore(indexed) && Remain(games, indexed)
    ensures |games| <= |indexed|
    ensures |games| == |indexed| ==> games == indexed
    decreases |indexed|
  {
    hide ValidStore, Remain;
    if games != [] {
      RemainBelow(games, indexed);
      StoreFront(games);
      StoreFront(indexed);
      var front, earlier := games[..|games| - 1], indexed[..|indexed| - 1];
      if games[|games| - 1] == indexed[|indexed| - 1] {
        FrontRemains(games, indexed);
        RemainBefore(front, indexed);
        NoneRemoved(front, earlier);
      } else {
        RemainBefore(games, indexed);
        NoneRemoved(games, earlier);
      }
    }
  }

  /** Removing games leaves every entry an index of the remaining games or of more. */
  lemma GamesRemoved(files: map<Name, Content>, manifest: Option<Manifest>, games: seq<StoredGame>, remaining: seq<StoredGame>, config: Config)
    requires BundleOk(files, manifest, games, config) && GamesOk(remaining) && Remain(remaining, games)
    ensures BundleOk(files, manifest, remaining, config)
  {
  }

  lemma AllRemain(games: seq<StoredGame>)
    ensures Remain(games, games)
  {
  }

  lemma NoGames(files: map<Name, Content>, config: Config)
    ensures BundleOk(files, None, [], config)
  {
  }

  /** Durable state. `steps` is how many more durable effects happen before the process crashes; then the rest of it has no effect. */
  class Disk {
    const config: Config
    var files: map<Name, Content>
    var manifest: Option<Manifest>
    var hasDatabase: bool
    var games: seq<StoredGame>
    var steps: nat

    constructor (config: Config)
      ensures Ok() && this.config == config && manifest.None? && !hasDatabase && games == [] && steps == 0
    {
      hide IndexesMore, TreeIndexesMore;
      this.config := config;
      files, manifest, hasDatabase, games, steps := map[], None, false, [], 0;
    }

    ghost predicate Ok()
      reads this
    {
      BundleOk(files, manifest, games, config) && (manifest.Some? ==> hasDatabase)
    }

    predicate Crashed()
      reads this
    {
      steps == 0
    }

    /** A new process: it gets an arbitrary number of effects. */
    method Boot(effects: nat)
      modifies `steps
      ensures steps == effects
    {
      steps := effects;
    }

    /** Creates or replaces a file that the manifest does not name; a failed write may leave anything under the name. */
    method Put(name: Name, content: Content) returns (ok: bool)
      requires Ok() && (Crashed() || !Named(manifest, name))
      modifies `files, `steps
      ensures Ok() && steps <= old(steps)
      ensures !Crashed() ==> NamedKept(old(files), files, manifest)
      ensures !Crashed() && ok ==> name in files && files[name] == content
    {
      hide BundleOk;
      if steps == 0 {
        return true;
      }
      steps := steps - 1;
      ok := *;
      var partial: bool := *;
      var rest: Content := *;
      var after := if ok then files[name := content] else if partial then files[name := rest] else files;
      UnnamedChange(files, after, manifest, games, config);
      files := after;
    }

    /** Best-effort removal of a file that the manifest does not name. */
    method Remove(name: Name)
      requires Ok() && (Crashed() || !Named(manifest, name))
      modifies `files, `steps
      ensures Ok() && steps <= old(steps)
      ensures !Crashed() ==> NamedKept(old(files), files, manifest)
    {
      hide BundleOk;
      if steps == 0 {
        return;
      }
      steps := steps - 1;
      var failed: bool := *;
      var after := if failed then files else files - {name};
      UnnamedChange(files, after, manifest, games, config);
      files := after;
    }

    /** An atomic rename between names the manifest does not hold. */
    method Rename(from: Name, to: Name) returns (ok: bool)
      requires Ok() && from != to && (Crashed() || (!Named(manifest, from) && !Named(manifest, to)))
      modifies `files, `steps
      ensures Ok() && steps <= old(steps)
      ensures !Crashed() ==> NamedKept(old(files), files, manifest)
      ensures !Crashed() && ok ==> from in old(files) && to in files && files[to] == old(files)[from]
    {
      hide BundleOk;
      if steps == 0 {
        return true;
      }
      steps := steps - 1;
      var failed: bool := *;
      if failed || from !in files {
        return false;
      }
      var after := files[to := files[from]] - {from};
      UnnamedChange(files, after, manifest, games, config);
      files := after;
      return true;
    }

    /** write_manifest: a temporary file renamed over the manifest; the final directory sync may still fail. */
    method WriteManifest(m: Manifest) returns (outcome: WriteOutcome)
      requires Ok() && (Crashed() || (hasDatabase && BundleOk(files, Some(m), games, config)))
      modifies `manifest, `steps
      ensures Ok() && steps <= old(steps)
      ensures !Crashed() ==> manifest == if outcome.NotPublished? then old(manifest) else Some(m)
    {
      hide BundleOk;
      if steps == 0 {
        return PublishedDurably;
      }
      steps := steps - 1;
      outcome := *;
      if !outcome.NotPublished? {
        manifest := Some(m);
      }
    }

    /** One SQLite transaction on the game table; it may fail and change nothing. */
    method Commit(changed: seq<StoredGame>) returns (ok: bool)
      requires Ok() && (Crashed() || BundleOk(files, manifest, changed, config))
      modifies `games, `steps
      ensures Ok() && steps <= old(steps)
      ensures !Crashed() ==> games == if ok then changed else old(games)
    {
      hide BundleOk;
      if steps == 0 {
        return true;
      }
      steps := steps - 1;
      ok := *;
      if ok {
        games := changed;
      }
    }

    /** Creates the game database with an empty table. */
    method CreateDatabase() returns (ok: bool)
      requires Ok() && manifest.None?
      modifies `games, `hasDatabase, `steps
      ensures Ok() && steps <= old(steps)
      ensures !Crashed() && ok ==> hasDatabase && games == []
    {
      hide BundleOk;
      if steps == 0 {
        return true;
      }
      steps := steps - 1;
      ok := *;
      if ok {
        NoGames(files, config);
        hasDatabase, games := true, [];
      }
    }
  }
}
