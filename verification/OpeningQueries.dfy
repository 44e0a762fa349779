/** Opening statistics of a database: from the tree, or replayed from the postings, always the naive aggregate over all games. */
module OpeningQueries {
  import opened Words
  import opened SortedRuns
  import opened Aggregation
  import opened Chess
  import opened PostingBlock
  import opened PostingOrder
  import opened PostingsFile
  import opened PostingsArtifact
  import opened PostingsLookup
  import opened PostingsAnswers
  import opened PostingsBuild
  import opened PositionPostings
  import opened OpeningStats
  import opened OpeningMeaning
  import opened OpeningTreeFile
  import opened OpeningTreeWriter
  import opened OpeningTree
  import opened OpeningTreeBuilder
  import opened OpeningTreeWidth
  import opened PostingsReplay

  /** No indexed game has a ply beyond 16 bits, so this cap covers every ply. */
  const UNCAPPED: nat := U16_MAX

  // What the postings of a store know about a position.

  ghost function VisitIds(rules: Rules, games: seq<StoredGame>, hash: nat): (ids: seq<nat>)
    ensures |ids| == VisitCount(rules, games, hash)
  {
    if games == [] then []
    else
      VisitIds(rules, games[..|games| - 1], hash)
      + if Visits(rules, games[|games| - 1], hash) then [games[|games| - 1].id] else []
  }

  ghost predicate VisitorIn(rules: Rules, games: seq<StoredGame>, hash: nat, id: nat) {
    exists g :: g in games && g.id == id && Visits(rules, g, hash)
  }

  lemma VisitorAppends(rules: Rules, front: seq<StoredGame>, last: StoredGame, hash: nat, id: nat)
    ensures VisitorIn(rules, front + [last], hash, id) <==> VisitorIn(rules, front, hash, id) || (last.id == id && Visits(rules, last, hash))
  {
    hide ReachesBy;
    var games := front + [last];
    assert last in games;
    if g :| g in front && g.id == id && Visits(rules, g, hash) {
      assert g in games;
    }
    if g :| g in games && g.id == id && Visits(rules, g, hash) {
      assert g in front || g == last;
    }
  }

  lemma {:induction false} VisitIdsAre(rules: Rules, games: seq<StoredGame>, hash: nat)
    requires ValidStore(games)
    ensures forall i, j :: 0 <= i < j < |VisitIds(rules, games, hash)| ==> VisitIds(rules, games, hash)[i] < VisitIds(rules, games, hash)[j]
    ensures forall id :: id in VisitIds(rules, games, hash) <==> VisitorIn(rules, games, hash, id)
  {
    if games != [] {
      hide ReachesBy, ValidStore, VisitorIn;
      var front, last := games[..|games| - 1], games[|games| - 1];
      assert games == front + [last];
      FrontIsStore(games);
      VisitIdsAre(rules, front, hash);
      var before := VisitIds(rules, front, hash);
      forall i | 0 <= i < |before|
        ensures before[i] < last.id
      {
        assert before[i] in before;
        VisitorBefore(rules, games, hash, before[i]);
      }
      forall id
        ensures id in VisitIds(rules, games, hash) <==> VisitorIn(rules, games, hash, id)
      {
        VisitorAppends(rules, front, last, hash, id);
      }
    }
  }

  lemma VisitorBefore(rules: Rules, games: seq<StoredGame>, hash: nat, id: nat)
    requires ValidStore(games) && games != [] && VisitorIn(rules, games[..|games| - 1], hash, id)
    ensures id < games[|games| - 1].id
  {
    hide ReachesBy;
    var front := games[..|games| - 1];
    var g :| g in front && g.id == id && Visits(rules, g, hash);
    var j :| 0 <= j < |front| && front[j] == g;
    assert games[j].id < games[|games| - 1].id;
  }

  /** A stored game stands at the hash after that many plies. */
  lemma RecordOfGame(rules: Rules, games: seq<StoredGame>, hash: nat, id: nat, ply: nat)
    ensures Triple(hash, id, ply) in StoreRecords(rules, games) <==>
      exists g :: g in games && g.id == id && ply <= |g.moves| && HashAt(rules, g, ply) == hash
  {
    hide HashAfter, StoreRecords;
    StoreRecordIn(rules, games, Triple(hash, id, ply));
    if g :| g in games && g.id == id && ply <= |g.moves| && HashAt(rules, g, ply) == hash {
      var i :| 0 <= i < |games| && games[i] == g;
      assert HashAfter(rules, games[i].moves[..ply]) == hash;
    }
    if i :| 0 <= i < |games| && games[i].id == id && ply <= |games[i].moves| && HashAfter(rules, games[i].moves[..ply]) == hash {
      assert games[i] in games;
      assert HashAt(rules, games[i], ply) == hash;
    }
  }

  /** The game groups of a hash are the games that visit the position. */
  lemma GroupsAreVisits(rules: Rules, games: seq<StoredGame>, gs: seq<HashGroup>, hash: nat)
    requires ValidStore(games) && GroupsFor(gs, StoreRecords(rules, games))
    ensures |GamesOf(gs, hash)| == VisitCount(rules, games, hash)
    ensures GameIds(GamesOf(gs, hash)) == VisitIds(rules, games, hash)
  {
    hide HashAfter, StoreRecords, ValidHashGroups, GroupRecords, GamesOf, Occurrences, ValidStore, VisitIds;
    var groups := GamesOf(gs, hash);
    var ids, visiting := GameIds(groups), VisitIds(rules, games, hash);
    GamesValid(gs, hash);
    ValidIsStored(0, groups);
    GameIdsProject(0, groups);
    VisitIdsAre(rules, games, hash);
    forall id
      ensures id in ids <==> id in visiting
    {
      if id in ids {
        var o :| o in Occurrences(groups) && o.id == id;
        RecordIn(gs, Triple(hash, id, o.ply));
        assert Triple(hash, id, o.ply) in Elements(GroupRecords(gs));
        RecordOfGame(rules, games, hash, id, o.ply);
        var g :| g in games && g.id == id && o.ply <= |g.moves| && HashAt(rules, g, o.ply) == hash;
        assert Visits(rules, g, hash);
        assert VisitorIn(rules, games, hash, id);
      }
      if id in visiting {
        assert VisitorIn(rules, games, hash, id);
        var g :| g in games && g.id == id && Visits(rules, g, hash);
        var p: nat :| p <= |g.moves| && HashAt(rules, g, p) == hash;
        RecordOfGame(rules, games, hash, id, p);
        assert Triple(hash, id, p) in Elements(GroupRecords(gs));
        RecordIn(gs, Triple(hash, id, p));
        assert Occurrence(id, p) in Occurrences(groups);
      }
    }
    AscendingIsUnique(ids, visiting);
  }

  /** The index file of a store: groups and the acceptance they come with. */
  lemma IndexGroups(file: seq<byte>, rules: Rules, games: seq<StoredGame>) returns (gs: seq<HashGroup>)
    requires IndexesStore(file, rules, games) && ValidStore(games)
    ensures GroupsFor(gs, StoreRecords(rules, games)) && Published(Ok(()), gs, StoreMetadata(games), |games|, None, Some(file))
    ensures ValidHashGroups(gs) && ValidRecords(MetadataList(StoreMetadata(games))) && |games| <= U64_MAX
    ensures file == Artifact(gs, MetadataList(StoreMetadata(games)), |games|) && ReadsAs(file, gs, MetadataList(StoreMetadata(games)))
  {
    hide Acceptable, Representable, ValidRecords, MetadataList, StoreMetadata, StoreRecords, Artifact, ReadsAs;
    gs :| GroupsFor(gs, StoreRecords(rules, games)) && Published(Ok(()), gs, StoreMetadata(games), |games|, None, Some(file));
    StoreIsSmall(games);
    ArtifactReadsAs(gs, MetadataList(StoreMetadata(games)), |games|, file);
  }

  /** The one answer to a query lists the occurrences of the position over the stored games, each with its game's metadata. */
  lemma AnswersAreOccurrences(all: seq<Match>, rules: Rules, games: seq<StoredGame>, hash: nat)
    requires ValidStore(games) && Answers(all, StoreRecords(rules, games), StoreMetadata(games), hash)
    ensures AllOccurrences(all, rules, games, hash)
  {
    hide StoreMetadata, StoreRecords, HashAfter, ValidStore;
    forall k | 0 <= k < |all|
      ensures OccursInSome(all[k], rules, games, hash)
    {
      RecordOfGame(rules, games, hash, all[k].id, all[k].ply);
      var g :| g in games && g.id == all[k].id && all[k].ply <= |g.moves| && HashAt(rules, g, all[k].ply) == hash;
      var i :| 0 <= i < |games| && games[i] == g;
      StoredMetadataAt(games, i);
      assert OccursIn(all[k], rules, g, hash);
    }
    forall g: StoredGame, ply: nat | g in games && ply <= |g.moves| && HashAt(rules, g, ply) == hash
      ensures Listed(all, g.id, ply)
    {
      RecordOfGame(rules, games, hash, g.id, ply);
      assert Triple(hash, g.id, ply) in StoreRecords(rules, games);
    }
  }

  /** occurrences(hash) lists every occurrence of the position over the stored games. */
  lemma OccurrencesAreAll(file: seq<byte>, rules: Rules, games: seq<StoredGame>, hash: nat) returns (all: seq<Match>)
    requires IndexesStore(file, rules, games) && ValidStore(games)
    ensures Acceptable(file) && OccurrencesAnswer(file, hash, 0, 0) == Ok(all) && AllOccurrences(all, rules, games, hash)
  {
    hide Acceptable, GroupsFor, Published, OccurrencesAnswer, StoreMetadata, StoreRecords, IndexesStore, ValidStore, Page, Answers, AllOccurrences;
    var gs := IndexGroups(file, rules, games);
    all := BuiltIndexAnswers(rules, games, gs, file, hash);
    WholePage(all);
    AnswersAreOccurrences(all, rules, games, hash);
  }

  lemma WholePage<T>(s: seq<T>)
    ensures Page(s, 0, 0) == s
  {
  }

  /** summary(hash): the visit count, and a bound on the plies of all occurrences. */
  lemma SummaryMeans(file: seq<byte>, rules: Rules, games: seq<StoredGame>, hash: nat)
    requires IndexesStore(file, rules, games) && ValidStore(games)
    ensures Acceptable(file)
    ensures
      var found := Lookup(Directory(file, IndexOf(file)), hash);
      && (found.None? <==> VisitCount(rules, games, hash) == 0)
      && (found.Some? ==> found.value.games == VisitCount(rules, games, hash))
      && (found.Some? ==> forall g: StoredGame, p: nat ::
            g in games && p <= |g.moves| && HashAt(rules, g, p) == hash ==> p <= found.value.maxPly)
  {
    hide Acceptable, Published, Artifact, StoreMetadata, StoreRecords, HashAfter, IndexesStore, ValidStore, Lookup, Directory, IndexOf;
    hide GroupRecords, GamesOf, Occurrences, ValidHashGroups, ValidRecords, MetadataList, MaxPly, MinPly;
    var gs := IndexGroups(file, rules, games);
    EntryOfHash(gs, MetadataList(StoreMetadata(games)), file, hash);
    GroupsAreVisits(rules, games, gs, hash);
    var groups := GamesOf(gs, hash);
    GamesValid(gs, hash);
    OccurrencesAscend(0, groups);
    if Occurrences(groups) != [] {
      PlyRange(Occurrences(groups));
    }
    forall g: StoredGame, p: nat | g in games && p <= |g.moves| && HashAt(rules, g, p) == hash
      ensures Occurrence(g.id, p) in Occurrences(groups)
    {
      RecordOfGame(rules, games, hash, g.id, p);
      assert Triple(hash, g.id, p) in Elements(GroupRecords(gs));
      RecordIn(gs, Triple(hash, g.id, p));
    }
  }

  lemma GameIdsMean(file: seq<byte>, rules: Rules, games: seq<StoredGame>, hash: nat)
    requires IndexesStore(file, rules, games) && ValidStore(games)
    ensures Acceptable(file) && GameIdsAnswer(file, hash) == Ok(VisitIds(rules, games, hash))
  {
    hide Acceptable, Published, Artifact, StoreMetadata, StoreRecords, HashAfter, IndexesStore, ValidStore, IndexOf, Posting, VisitIds;
    hide GroupRecords, GamesOf, Occurrences, ValidHashGroups, ValidRecords, MetadataList, GameIds;
    var gs := IndexGroups(file, rules, games);
    forall t | t in GroupRecords(gs)
      ensures t.second in StoreMetadata(games)
    {
      assert t in Elements(GroupRecords(gs));
      StoreRecordIn(rules, games, t);
      StoredIds(games, t.second);
    }
    GameIdsAreAnswers(gs, StoreMetadata(games), file, hash);
    PostingOfArtifact(gs, MetadataList(StoreMetadata(games)), file, hash);
    GroupsAreVisits(rules, games, gs, hash);
  }

  // The slow path.

  lemma AggregatesAreNaive(aggregates: map<Triple, Agg>, direct: map<Triple, Direct>, matches: seq<Match>, rules: Rules,
                           contexts: map<nat, seq<nat>>, games: seq<StoredGame>, counted: seq<StoredGame>, hash: nat)
    requires AggregatesOk(aggregates, direct, direct.Keys, counted, hash)
    requires DirectOk(direct, matches, |matches|, rules, contexts) && AllOccurrences(matches, rules, games, hash)
    requires ContextsOk(contexts, counted) && ValidStore(games) && ValidStore(counted) && AllElosOk(counted)
    requires forall h :: h in counted ==> h in games && |h.moves| <= UNCAPPED
    ensures forall key :: key in aggregates ==> key.first == hash && aggregates[key].eloWeight >= 0
  {
    hide DirectOk, AllOccurrences, ContextsOk, ValidStore, Processed, NaiveEdge, AllElosOk;
    forall key | key in aggregates
      ensures key.first == hash && aggregates[key].eloWeight >= 0
    {
      AllProcessed(direct, matches, rules, contexts, games, counted, counted, hash, key, UNCAPPED);
      NaiveEdgeOk(rules, UNCAPPED, counted, key);
    }
  }

  lemma AllowedElos(games: seq<StoredGame>, ids: set<nat>)
    requires ValidStore(games) && AllElosOk(games) && AllStorable(games)
    ensures ValidStore(Allowed(games, ids)) && AllElosOk(Allowed(games, ids))
    ensures forall h :: h in Allowed(games, ids) ==> h in games && |h.moves| <= UNCAPPED
  {
    hide ElosOk, ValidStore;
    AllowedAre(games, ids);
    var counted := Allowed(games, ids);
    forall i | 0 <= i < |counted|
      ensures counted[i] in games && ElosOk(counted[i]) && |counted[i].moves| <= UNCAPPED
    {
      assert counted[i] in counted;
      var j :| 0 <= j < |games| && games[j] == counted[i];
      assert Storable(games[j]);
    }
  }

  lemma DirectGames(direct: map<Triple, Direct>, matches: seq<Match>, rules: Rules, contexts: map<nat, seq<nat>>, counted: seq<StoredGame>)
    requires DirectOk(direct, matches, |matches|, rules, contexts) && ContextsOk(contexts, counted)
    ensures forall t :: t in direct ==> exists g :: g in counted && g.id == t.first
  {
    hide HashAfter;
    forall t | t in direct
      ensures exists g :: g in counted && g.id == t.first
    {
      var i :| 0 <= i < |matches| && EdgeOf(matches[i], rules, contexts) == Some(t) && direct[t] == Direct(matches[i].ply, matches[i]);
      assert t.first in contexts;
    }
  }

  /** The reader is open on the postings index of the stored games. */
  ghost predicate UpToDate(postings: PositionPostings, rules: Rules, games: seq<StoredGame>)
    reads postings
  {
    postings.isOpen && postings.Loaded() && IndexesStore(postings.artifact.value, rules, games)
  }

  ghost predicate CountsAre(childCounts: map<nat, nat>, children: set<nat>, rules: Rules, games: seq<StoredGame>) {
    childCounts.Keys == children && forall h :: h in children ==> childCounts[h] == VisitCount(rules, games, h)
  }

  lemma OneMoreCount(childCounts: map<nat, nat>, children: set<nat>, rules: Rules, games: seq<StoredGame>, child: nat)
    requires CountsAre(childCounts, children, rules, games)
    ensures CountsAre(childCounts[child := VisitCount(rules, games, child)], children + {child}, rules, games)
  {
  }

  /** The distinct games of a position by its summary; a missing summary counts zero. */
  method VisitorsOf(postings: PositionPostings, child: nat, rules: Rules, ghost games: seq<StoredGame>) returns (n: nat)
    requires UpToDate(postings, rules, games) && ValidStore(games)
    ensures n == VisitCount(rules, games, child)
  {
    hide Acceptable, IndexesStore, ValidStore, IndexOf, Lookup, Directory, VisitCount, HashAfter;
    SummaryMeans(postings.artifact.value, rules, games, child);
    var summary := SummaryFor(postings.artifact.value, postings.index, child);
    return if summary.value.None? then 0 else summary.value.value.games;
  }

  /** The global child counts: the summaries of the child positions. */
  method GlobalCounts(postings: PositionPostings, children: set<nat>, rules: Rules, ghost games: seq<StoredGame>) returns (childCounts: map<nat, nat>)
    requires UpToDate(postings, rules, games) && ValidStore(games)
    ensures CountsAre(childCounts, children, rules, games)
  {
    hide IndexesStore, ValidStore, VisitCount, UpToDate, CountsAre;
    childCounts := map[];
    var rest := children;
    NoCounts(rules, games);
    assert children - rest == {};
    while rest != {}
      invariant rest <= children && CountsAre(childCounts, children - rest, rules, games)
      decreases rest
    {
      var child :| child in rest;
      var n := VisitorsOf(postings, child, rules, games);
      OneMoreCount(childCounts, children - rest, rules, games, child);
      childCounts := childCounts[child := n];
      assert (children - rest) + {child} == children - (rest - {child});
      rest := rest - {child};
    }
    assert children - {} == children;
  }

  lemma NoCounts(rules: Rules, games: seq<StoredGame>)
    ensures CountsAre(map[], {}, rules, games)
  {
  }

  lemma AllowedIsStore(games: seq<StoredGame>, ids: set<nat>)
    requires ValidStore(games) && AllElosOk(games) && AllStorable(games)
    ensures var counted := Allowed(games, ids); ValidStore(counted) && AllElosOk(counted) && AllStorable(counted)
  {
    AllowedAre(games, ids);
    AllowedElos(games, ids);
    var counted := Allowed(games, ids);
    forall i | 0 <= i < |counted|
      ensures Storable(counted[i])
    {
      assert counted[i] in games;
    }
  }

  /** In games the index takes, the naive statistics are what the rows say of the games that play them, without any cap. */
  lemma UncappedStats(rows: seq<StatRow>, rules: Rules, games: seq<StoredGame>, all: seq<StoredGame>, hash: nat)
    requires ValidStore(games) && AllElosOk(games) && AllStorable(games) && ValidStore(all)
    ensures IsStatsOver(rows, rules, UNCAPPED, games, all, hash) <==> StatsOfPlay(rows, rules, None, games, all, hash)
    ensures games == all ==> (IsStats(rows, rules, UNCAPPED, games, hash) <==> StatsOfPlay(rows, rules, None, games, games, hash))
  {
    hide IsStatsOver, StatsOfPlay, ValidStore, AllElosOk;
    StatsAreMeant(rows, rules, UNCAPPED, games, all, hash);
    forall i | 0 <= i < |games|
      ensures |games[i].moves| <= U16_MAX + 1
    {
      assert Storable(games[i]);
    }
    CapCoversAll(rows, rules, games, all, hash);
  }

  /** postings_filtered_opening_stats. */
  method FilteredStats(rules: Rules, games: seq<StoredGame>, postings: PositionPostings, root: nat, allowed: set<nat>, global: bool)
    returns (r: Result<seq<StatRow>>)
    requires ValidStore(games) && AllElosOk(games) && AllStorable(games)
    requires UpToDate(postings, rules, games)
    ensures r.Ok? && IsStatsOver(r.value, rules, UNCAPPED, Allowed(games, allowed), if global then games else Allowed(games, allowed), root)
    ensures StatsOfPlay(r.value, rules, None, Allowed(games, allowed), if global then games else Allowed(games, allowed), root)
  {
    hide Acceptable, IndexesStore, ValidStore, AllElosOk, AllStorable, IndexOf, OccurrencesAnswer, AllOccurrences, ContextsOk, DirectOk;
    hide AggregatesOk, RowsOk, IsStatsOver, StatsOfPlay, VisitCount, Allowed;
    ghost var all := OccurrencesAreAll(postings.artifact.value, rules, games, root);
    ghost var counted := Allowed(games, allowed);
    AllowedElos(games, allowed);
    var answer := postings.Occurrences(root, 0, 0);
    var occurrences: seq<Match>;
    match answer {
      case Err(e) => return Err(e);
      case Ok(matches) => occurrences := matches;
    }
    var contexts := GetContexts(games, allowed);
    var direct := CollectDirect(occurrences, rules, contexts);
    DirectGames(direct, occurrences, rules, contexts, counted);
    var aggregates := AggregateDirect(direct, root, counted);
    AggregatesAreNaive(aggregates, direct, occurrences, rules, contexts, games, counted, root);
    var children := set key | key in aggregates :: key.third;
    var childCounts;
    if global {
      childCounts := GlobalCounts(postings, children, rules, games);
    } else {
      childCounts := CountChildren(contexts, rules, children, counted);
    }
    ghost var visited := if global then games else counted;
    ghost var counts: nat -> nat := (h: nat) => VisitCount(rules, visited, h);
    assert forall key :: key in aggregates ==> key.third in children;
    var rows := EmitRows(aggregates, childCounts, root, counts);
    ReplayedStats(rows, aggregates, direct, occurrences, rules, contexts, games, counted, visited, root, UNCAPPED, counts);
    AllowedIsStore(games, allowed);
    UncappedStats(rows, rules, counted, visited, root);
    return Ok(rows);
  }

  /** Restricting to games that reach the position loses none of its edges. */
  lemma {:induction false} VisitorsSuffice(rules: Rules, cap: nat, games: seq<StoredGame>, ids: set<nat>, key: Triple)
    requires forall g :: g in games && Visits(rules, g, key.first) ==> g.id in ids
    ensures NaiveEdge(rules, cap, Allowed(games, ids), key) == NaiveEdge(rules, cap, games, key)
  {
    hide FirstPly, HashAfter, ReachesBy, GameAgg;
    if games != [] {
      var front, last := games[..|games| - 1], games[|games| - 1];
      assert last in games;
      VisitorsSuffice(rules, cap, front, ids, key);
      if last.id in ids {
        assert (Allowed(front, ids) + [last])[..|Allowed(front, ids)|] == Allowed(front, ids);
      } else {
        assert Allowed(front, ids) + [] == Allowed(front, ids);
        if Contribution(rules, cap, last, key).Some? {
          FirstPlyCovered(rules, cap, last, key);
          assert false;
        }
      }
    }
  }

  /** query_unfiltered_opening_stats without a usable tree: all games that reach the position, global child counts. */
  method ReplayedUnfiltered(rules: Rules, games: seq<StoredGame>, postings: PositionPostings, hash: nat) returns (r: Result<seq<StatRow>>)
    requires ValidStore(games) && AllElosOk(games) && AllStorable(games)
    requires UpToDate(postings, rules, games)
    ensures r.Ok? && IsStats(r.value, rules, UNCAPPED, games, hash) && StatsOfPlay(r.value, rules, None, games, games, hash)
  {
    hide Acceptable, IndexesStore, ValidStore, AllElosOk, AllStorable, IndexOf, GameIdsAnswer, NaiveEdge, VisitCount, RowOf, ReachesBy, Page, StatsOfPlay;
    GameIdsMean(postings.artifact.value, rules, games, hash);
    VisitIdsAre(rules, games, hash);
    WholePage(VisitIds(rules, games, hash));
    var ids := postings.DistinctGames(hash, 0, 0);
    var allowed: set<nat> := {};
    match ids {
      case Err(e) => return Err(e);
      case Ok(list) => allowed := set id | id in list;
    }
    r := FilteredStats(rules, games, postings, hash, allowed, true);
    forall key: Triple | key.first == hash
      ensures NaiveEdge(rules, UNCAPPED, Allowed(games, allowed), key) == NaiveEdge(rules, UNCAPPED, games, key)
    {
      VisitorsAllowed(rules, games, hash, allowed);
      VisitorsSuffice(rules, UNCAPPED, games, allowed, key);
    }
    UncappedStats(r.value, rules, games, games, hash);
  }

  lemma VisitorsAllowed(rules: Rules, games: seq<StoredGame>, hash: nat, ids: set<nat>)
    requires ValidStore(games) && forall id :: id in VisitIds(rules, games, hash) ==> id in ids
    ensures forall g :: g in games && Visits(rules, g, hash) ==> g.id in ids
  {
    hide ReachesBy, ValidStore;
    VisitIdsAre(rules, games, hash);
    forall g | g in games && Visits(rules, g, hash)
      ensures g.id in ids
    {
      assert VisitorIn(rules, games, hash, g.id);
    }
  }

  // The fast path.

  /** The tree in memory was loaded from the tree file of the stored games. */
  ghost predicate TreeOf(index: TreeIndex, file: TreeFile, rules: Rules, cap: nat, games: seq<StoredGame>) {
    LoadedFrom(index, file, StartHash(rules)) && IndexesTree(file, rules, cap, games)
  }

  /** The games are such as the store keeps and the postings index takes: 16-bit plies, moves and Elos. */
  ghost predicate SmallStore(games: seq<StoredGame>) {
    ValidStore(games) && AllElosOk(games) && MovesFit(games) && AllStorable(games)
  }

  lemma StorableIsShort(games: seq<StoredGame>)
    requires SmallStore(games)
    ensures ValidStore(games) && AllElosOk(games) && MovesFit(games) && ShortGames(games) && SmallElos(games)
  {
    forall i | 0 <= i < |games|
      ensures Storable(games[i]) && ElosOk(games[i])
    {
    }
  }

  lemma TreeNodesOf(index: TreeIndex, file: TreeFile, rules: Rules, cap: nat, games: seq<StoredGame>)
    requires TreeOf(index, file, rules, cap, games) && SmallStore(games) && cap <= U16_MAX
    ensures BuiltNodes(NodesOf(file), rules, cap, games) && StoredCap(file) == cap && StoredGameCount(file) == |games|
  {
    hide BuiltNodes, NodesOk, ParseNodes, StartHash, FileOf, IndexesTree, SmallStore, ValidStore, AllElosOk, MovesFit, ShortGames, SmallElos;
    StorableIsShort(games);
    BuiltNodesAreRead(file, rules, cap, games);
  }

  /** What the tree answers for a position is the naive aggregate under the depth cap. */
  lemma TreeAnswer(index: TreeIndex, file: TreeFile, rules: Rules, cap: nat, games: seq<StoredGame>, hash: nat)
    requires TreeOf(index, file, rules, cap, games) && SmallStore(games) && cap <= U16_MAX
    ensures
      var node := FindNode(NodesOf(file), hash);
      && IsStats(if node.Some? then RowsOfNode(node.value) else [], rules, cap, games, hash)
      && (node.Some? && node.value.complete ==> hash == StartHash(rules))
  {
    hide Merged, CountsVisits, FindNode, StartHash, IsStats, ParseNodes, NodesOk, SmallStore, IndexesTree;
    TreeNodesOf(index, file, rules, cap, games);
    var roots, edges, counts :| Merged(roots, edges, rules, cap, games) && CountsVisits(counts, rules, games)
                                && NodesOf(file) == TreeNodes(roots, edges, counts, StartHash(rules));
    NodeStats(roots, edges, counts, rules, cap, games, hash);
    FindNodeFinds(NodesOf(file), hash);
  }

  /** The open tree index of the manager and the file it reads. */
  datatype LiveTree = LiveTree(index: TreeIndex, file: TreeFile)

  /** Some game plays a move from the position. */
  predicate PlaysOn(rules: Rules, games: seq<StoredGame>, hash: nat) {
    exists i, p :: 0 <= i < |games| && 0 <= p < |games[i].moves| && HashAt(rules, games[i], p) == hash
  }

  /** No rows are the statistics of exactly the positions from which no game plays on. */
  lemma EmptyIsStats(rules: Rules, games: seq<StoredGame>, hash: nat)
    requires ValidStore(games) && AllElosOk(games) && AllStorable(games)
    ensures StatsOfPlay([], rules, None, games, games, hash) <==> !PlaysOn(rules, games, hash)
    ensures IsStats([], rules, UNCAPPED, games, hash) <==> !PlaysOn(rules, games, hash)
  {
    hide NaiveEdge, HashAfter, StoreEdges, GameEdges, StatsOfPlay, ValidStore, AllElosOk;
    UncappedStats([], rules, games, games, hash);
    if PlaysOn(rules, games, hash) {
      var i, p :| 0 <= i < |games| && 0 <= p < |games[i].moves| && HashAt(rules, games[i], p) == hash;
      var key := EdgeKey(rules, games[i], p);
      assert Storable(games[i]) && Covered(rules, UNCAPPED, games[i], p);
      assert key in GameEdges(rules, UNCAPPED, games[i]) by { EdgeIsListed(rules, UNCAPPED, games[i], p); }
      StoreHasGameEdges(rules, UNCAPPED, games, i);
      StoreEdgeIn(rules, UNCAPPED, games, key);
      assert key == Triple(hash, key.second, key.third);
    } else {
      forall move: nat, child: nat
        ensures NaiveEdge(rules, UNCAPPED, games, Triple(hash, move, child)).None?
      {
        if NaiveEdge(rules, UNCAPPED, games, Triple(hash, move, child)).Some? {
          var i, p := EdgeWitness(rules, UNCAPPED, games, Triple(hash, move, child));
          assert false;
        }
      }
    }
  }

  lemma EdgeIsListed(rules: Rules, cap: nat, g: StoredGame, p: nat)
    requires p < |g.moves| && Covered(rules, cap, g, p)
    ensures EdgeKey(rules, g, p) in GameEdges(rules, cap, g)
  {
  }

  /** The tree holds every edge of the position whatever its depth. */
  ghost predicate CompleteInTree(file: TreeFile, hash: nat)
    requires ParseNodes(file, StoredNodeCount(file)).Some?
  {
    FindNode(NodesOf(file), hash).Some? && FindNode(NodesOf(file), hash).value.complete
  }

  /**
   * query_unfiltered_opening_stats. Whichever of its paths is taken, a successful answer is the naive aggregate over all stored
   * games, rows and order, unless the summary of the position had to be read and could not be: then the empty answer it succeeds
   * with is right exactly for a position from which no game plays on.
   */
  method QueryUnfiltered(rules: Rules, games: seq<StoredGame>, postings: PositionPostings, postingsValid: bool, tree: Option<LiveTree>,
                         treeValid: bool, hash: nat, summaryFails: bool, ghost cap: nat) returns (r: Result<seq<StatRow>>, unread: bool)
    requires ValidStore(games) && AllElosOk(games) && MovesFit(games) && cap <= UNCAPPED
    requires postingsValid && postings.indexedGameCount == |games| ==> UpToDate(postings, rules, games) && AllStorable(games)
    requires treeValid ==> tree.Some?
    requires treeValid && tree.value.index.sourceGameCount == |games| ==> TreeOf(tree.value.index, tree.value.file, rules, cap, games)
    ensures r.Ok? <==> postingsValid && postings.indexedGameCount == |games|
    ensures unread <==> summaryFails && r.Ok? && treeValid && tree.value.index.sourceGameCount == |games| && !CompleteInTree(tree.value.file, hash)
    ensures r.Ok? && !unread ==> StatsOfPlay(r.value, rules, None, games, games, hash)
    ensures unread ==> r == Ok([]) && (StatsOfPlay([], rules, None, games, games, hash) <==> !PlaysOn(rules, games, hash))
    ensures r.Err? ==> r == Err(IoFailure)
  {
    unread := false;
    hide PlaysOn, StatsOfPlay;
    hide Acceptable, IndexesStore, ValidStore, AllElosOk, AllStorable, IndexOf, NaiveEdge, VisitCount, RowOf, ReachesBy, IsStats, NodesOk, Indexes;
    hide FindNode, RowsOfNode, Shallow, HashAfter, Lookup, Directory, BuiltNodes, FileOf, ParseNodes;
    if !postingsValid {
      return Err(IoFailure), false;
    }
    if |games| != postings.indexedGameCount {
      return Err(IoFailure), false;
    }
    if !treeValid {
      r := ReplayedUnfiltered(rules, games, postings, hash);
      return;
    }
    var index, file := tree.value.index, tree.value.file;
    if |games| != index.sourceGameCount {
      r := ReplayedUnfiltered(rules, games, postings, hash);
      return;
    }
    TreeNodesOf(index, file, rules, cap, games);
    LoadedCounts(index, file, StartHash(rules));
    TreeAnswer(index, file, rules, cap, games, hash);
    ghost var node := FindNode(NodesOf(file), hash);
    ghost var rows := if node.Some? then RowsOfNode(node.value) else [];
    var complete := IsComplete(index, hash, file, StartHash(rules));
    if complete {
      StartIsShallow(rules, cap, games);
      CappedStats(rows, rules, cap, UNCAPPED, games, hash);
      UncappedStats(rows, rules, games, games, hash);
      r := QueryTree(index, file, hash, StartHash(rules));
      return;
    }
    if summaryFails {
      EmptyIsStats(rules, games, hash);
      return Ok([]), true;
    }
    SummaryMeans(postings.artifact.value, rules, games, hash);
    var summary := SummaryFor(postings.artifact.value, postings.index, hash);
    if summary.value.None? {
      UnvisitedStats(rules, UNCAPPED, games, hash);
      UncappedStats([], rules, games, games, hash);
      return Ok([]), false;
    }
    if summary.value.value.maxPly > index.maxRootPly {
      r := ReplayedUnfiltered(rules, games, postings, hash);
      return;
    }
    BoundedIsShallow(rules, cap, games, hash);
    CappedStats(rows, rules, cap, UNCAPPED, games, hash);
    UncappedStats(rows, rules, games, games, hash);
    r := QueryTree(index, file, hash, StartHash(rules));
  }

  lemma LoadedCounts(index: TreeIndex, file: TreeFile, start: nat)
    requires LoadedFrom(index, file, start)
    ensures index.sourceGameCount == StoredGameCount(file) && index.maxRootPly == StoredCap(file)
  {
  }

  lemma StartIsShallow(rules: Rules, cap: nat, games: seq<StoredGame>)
    ensures Shallow(rules, cap, games, StartHash(rules))
  {
  }

  lemma BoundedIsShallow(rules: Rules, cap: nat, games: seq<StoredGame>, hash: nat)
    requires forall g: StoredGame, p: nat :: g in games && p <= |g.moves| && HashAt(rules, g, p) == hash ==> p <= cap
    ensures Shallow(rules, cap, games, hash)
  {
    hide HashAfter;
    forall i: nat, p: nat | i < |games| && p <= |games[i].moves| && HashAt(rules, games[i], p) == hash
      ensures p <= cap
    {
      assert games[i] in games;
    }
  }

  /** A position no game visits has no rows. */
  lemma UnvisitedStats(rules: Rules, cap: nat, games: seq<StoredGame>, hash: nat)
    requires VisitCount(rules, games, hash) == 0
    ensures IsStats([], rules, cap, games, hash)
  {
    hide NaiveEdge, VisitCount, HashAfter;
    forall move: nat, child: nat
      ensures NaiveEdge(rules, cap, games, Triple(hash, move, child)).None?
    {
      if NaiveEdge(rules, cap, games, Triple(hash, move, child)).Some? {
        EdgeStartVisited(rules, cap, games, Triple(hash, move, child));
        assert false;
      }
    }
  }

  lemma {:induction false} EdgeStartVisited(rules: Rules, cap: nat, games: seq<StoredGame>, key: Triple)
    requires NaiveEdge(rules, cap, games, key).Some?
    ensures VisitCount(rules, games, key.first) > 0
  {
    hide FirstPly, HashAfter, ReachesBy, GameAgg;
    var front, last := games[..|games| - 1], games[|games| - 1];
    if Contribution(rules, cap, last, key).Some? {
      FirstPlyCovered(rules, cap, last, key);
    } else {
      EdgeStartVisited(rules, cap, front, key);
    }
  }

  // Child counts from the postings summaries.

  /** The (hash, distinct games) stream that a tree build draws from an open postings index. */
  function CountStream(es: seq<Entry>): (stream: seq<(nat, nat)>)
    ensures |stream| == |es|
  {
    seq(|es|, i requires 0 <= i < |es| => (es[i].hash, es[i].games))
  }

  lemma {:induction false} PairsStream(es: seq<Entry>, i: nat)
    requires i < |SummaryPairs(es)|
    ensures |SummaryPairs(es)| == |es| && SummaryPairs(es)[i] == (es[i].hash, SummaryOf(es[i]))
    decreases |es|
  {
    if es != [] {
      var n := |es| - 1;
      PairsLength(es);
      PairsLength(es[..n]);
      if i < n {
        PairsStream(es[..n], i);
      }
    }
  }

  lemma {:induction false} PairsLength(es: seq<Entry>)
    ensures |SummaryPairs(es)| == |es|
  {
    if es != [] {
      PairsLength(es[..|es| - 1]);
    }
  }

  /** The entries of a built directory, one per visited position. */
  lemma DirectoryCounts(gs: seq<HashGroup>, rules: Rules, games: seq<StoredGame>, i: nat)
    requires ValidStore(games) && GroupsFor(gs, StoreRecords(rules, games)) && i < |gs|
    ensures EntriesOf(gs)[i].hash == gs[i].hash && EntriesOf(gs)[i].games == VisitCount(rules, games, gs[i].hash) > 0
  {
    hide StoreRecords, ValidStore, VisitCount, GroupRecords, GamesOf, Occurrences, EntriesOf, EncodeGroups, MinPly, MaxPly;
    EntryAt(gs, i);
    GamesOfPresent(gs, i);
    GroupsAreVisits(rules, games, gs, gs[i].hash);
    GroupNotEmpty(gs, i);
  }

  lemma StreamTotals(es: seq<Entry>, gs: seq<HashGroup>, rules: Rules, games: seq<StoredGame>, key: Triple)
    requires ValidStore(games) && GroupsFor(gs, StoreRecords(rules, games)) && |es| == |gs| && RunSorted(CountsOf(CountStream(es)))
    requires forall i :: 0 <= i < |es| ==> es[i].hash == gs[i].hash && es[i].games == VisitCount(rules, games, gs[i].hash) > 0
    ensures Total(Plus, CountsOf(CountStream(es)), key) == VisitTotal(rules, games, key)
  {
    hide StoreRecords, ValidStore, VisitCount, GroupRecords, GamesOf, Occurrences, ValidHashGroups;
    var counts := CountsOf(CountStream(es));
    SortedTotal(Plus, counts, key);
    if key == HashKey(key.first) && VisitCount(rules, games, key.first) > 0 {
      GroupsAreVisits(rules, games, gs, key.first);
      HashPresent(gs, key.first);
      var i :| 0 <= i < |gs| && gs[i].hash == key.first;
      assert counts[i].key == key;
    }
  }

  /** The stream of an up-to-date postings index is what the internal visit counter would have counted. */
  lemma SummariesAreVisits(file: seq<byte>, rules: Rules, games: seq<StoredGame>)
    requires IndexesStore(file, rules, games) && ValidStore(games)
    ensures Acceptable(file) && StreamVisits(CountStream(Directory(file, IndexOf(file))), rules, games)
  {
    hide Acceptable, Published, Artifact, StoreMetadata, StoreRecords, HashAfter, IndexesStore, ValidStore, IndexOf, Directory, VisitCount;
    hide GroupRecords, GamesOf, Occurrences, ValidHashGroups, ValidRecords, MetadataList, EntriesOf, Total, EncodeGroups, VisitTotal;
    var gs := IndexGroups(file, rules, games);
    ArtifactHashesAscend(file);
    var es := EntriesOf(gs);
    forall i | 0 <= i < |es|
      ensures es[i].hash == gs[i].hash && es[i].games == VisitCount(rules, games, gs[i].hash) > 0
    {
      DirectoryCounts(gs, rules, games, i);
    }
    assert StreamOk(CountStream(es));
    StreamCounts(CountStream(es));
    forall key
      ensures Total(Plus, CountsOf(CountStream(es)), key) == VisitTotal(rules, games, key)
    {
      StreamTotals(es, gs, rules, games, key);
    }
  }

  lemma GroupNotEmpty(gs: seq<HashGroup>, i: nat)
    requires ValidHashGroups(gs) && i < |gs|
    ensures |gs[i].games| > 0
  {
  }

  lemma {:induction false} HashPresent(gs: seq<HashGroup>, hash: nat)
    requires GamesOf(gs, hash) != []
    ensures exists i :: 0 <= i < |gs| && gs[i].hash == hash
  {
    if gs[|gs| - 1].hash != hash {
      HashPresent(gs[..|gs| - 1], hash);
      var i :| 0 <= i < |gs| - 1 && gs[..|gs| - 1][i].hash == hash;
      assert gs[i].hash == hash;
    }
  }

  /** rebuild_opening_tree_index: the postings summaries as child counts when the postings are valid, the internal counter otherwise. */
  method ChildCountStream(postings: PositionPostings, postingsValid: bool) returns (stream: Option<seq<(nat, nat)>>)
    requires postingsValid ==> postings.isOpen && postings.Loaded()
    ensures stream == if postingsValid then Some(CountStream(Directory(postings.artifact.value, postings.index))) else None
  {
    hide SummaryPairs, IndexOf, Concat, CountStream;
    if !postingsValid {
      return None;
    }
    var pairs := postings.ForEachSummary();
    PairsAreStream(Directory(postings.artifact.value, postings.index));
    return Some(GameCounts(pairs.value));
  }

  function GameCounts(pairs: seq<(nat, Summary)>): seq<(nat, nat)> {
    seq(|pairs|, i requires 0 <= i < |pairs| => (pairs[i].0, pairs[i].1.games))
  }

  lemma PairsAreStream(es: seq<Entry>)
    ensures GameCounts(SummaryPairs(es)) == CountStream(es)
  {
    PairsLength(es);
    forall i | 0 <= i < |es|
      ensures GameCounts(SummaryPairs(es))[i] == CountStream(es)[i]
    {
      PairsStream(es, i);
    }
  }
}
