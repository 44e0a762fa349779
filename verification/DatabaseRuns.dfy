/** Whole runs of a bundle: sessions of commands, each session cut off by a crash after any number of durable effects. */
module DatabaseRuns {
  import opened Words
  import opened Chess
  import opened Bundle
  import opened DatabaseManager
  import opened OpeningStats
  import opened OpeningMeaning
  import opened OpeningQueries
  import opened PostingsLookup
  import GameSearch
  import EloDistribution

  /** A resumed import is a Reconcile and then an Import, whatever comes in between. */
  datatype Command =
    | Insert(game: StoredGame)
    | Remove(id: nat)
    | Patch(id: nat, result: Option<int>, whiteElo: Option<int>, blackElo: Option<int>)
    | Reconcile(duplicates: set<nat>)
    | Import(raw: bool, batches: seq<seq<StoredGame>>, duplicates: set<nat>, buildPostings: bool, buildTree: bool)
    | RebuildPostings
    | RebuildTree
    | QueryMatches(hash: nat, limit: nat, skip: nat)
    | QueryStats(hash: nat)
    | FindGames(hash: nat, filter: GameSearch.Filter)
    | QueryElos(hash: nat, filter: GameSearch.Filter, width: int)

  /** Commands respect the ranges of results, Elos and moves. */
  ghost predicate CommandOk(c: Command) {
    match c
    case Insert(g) => -1 <= g.result <= 1 && ElosOk(g) && MovesFit([g])
    case Patch(_, result, white, black) =>
      (result.Some? ==> -1 <= result.value <= 1) && (white.Some? ==> white.value >= 0) && (black.Some? ==> black.value >= 0)
    case Import(_, batches, _, _, _) => forall i :: 0 <= i < |batches| ==> BatchOk(batches[i])
    case FindGames(_, f) => GameSearch.FilterOk(f)
    case QueryElos(_, f, _) => GameSearch.FilterOk(f)
    case _ => true
  }

  /** A session: create the bundle or open it, with so many durable effects before the process dies. */
  datatype Session = Session(effects: nat, create: bool, commands: seq<Command>, close: bool)

  /** A successful query, with the games stored at that moment. */
  datatype Answer =
    | MatchesAnswer(games: seq<StoredGame>, hash: nat, limit: nat, skip: nat, rows: seq<Match>)
    | StatsAnswer(games: seq<StoredGame>, hash: nat, stats: seq<StatRow>, unread: bool)
    | PageAnswer(games: seq<StoredGame>, hash: nat, filter: GameSearch.Filter, page: GameSearch.GameList)
    | ElosAnswer(games: seq<StoredGame>, hash: nat, filter: GameSearch.Filter, width: int, elos: seq<EloDistribution.EloRow>)

  /**
   * The answer is the reference answer for the games stored when it was given; opening statistics behind a summary that could not be
   * read are empty, and right exactly when no game plays on.
   */
  ghost predicate Truthful(a: Answer, rules: Rules) {
    match a
    case MatchesAnswer(games, hash, limit, skip, rows) => MatchesNow(rows, rules, games, hash, limit, skip)
    case StatsAnswer(games, hash, stats, unread) =>
      if unread then stats == [] && (StatsOfPlay([], rules, None, games, games, hash) <==> !PlaysOn(rules, games, hash))
      else StatsOfPlay(stats, rules, None, games, games, hash)
    case PageAnswer(games, hash, filter, page) => GameSearch.IsPage(page, rules, games, hash, filter)
    case ElosAnswer(games, hash, filter, width, elos) =>
      width > 0 && EloDistribution.IsDistribution(elos, rules, (set g | g in games && filter.matches(g)), hash, width)
  }

  ghost predicate AllTruthful(answers: seq<Answer>, rules: Rules) {
    forall i :: 0 <= i < |answers| ==> Truthful(answers[i], rules)
  }

  method Execute(manager: DatabaseManager, c: Command) returns (answers: seq<Answer>)
    requires manager.Valid() && CommandOk(c)
    modifies manager, manager.disk
    ensures manager.Valid() && manager.disk.steps <= old(manager.disk.steps)
    ensures AllTruthful(answers, manager.config.rules)
    ensures forall i :: 0 <= i < |answers| ==> answers[i].games == manager.disk.games
  {
    hide DatabaseManager.Valid, MatchesNow, StatsOfPlay, PlaysOn, ElosOk, GameSearch.IsPage, EloDistribution.IsDistribution;
    answers := [];
    if !manager.connected {
      return;
    }
    match c {
      case Insert(g) =>
        var r := manager.InsertGame(g);
      case Remove(id) =>
        var r := manager.RemoveGame(id);
      case Patch(id, result, white, black) =>
        var r := manager.PatchGame(id, result, white, black);
      case Reconcile(duplicates) =>
        var r := manager.Reconcile(duplicates);
      case Import(raw, batches, duplicates, buildPostings, buildTree) =>
        var r, taken, stopped := manager.Import(raw, batches, duplicates, buildPostings, buildTree);
      case RebuildPostings =>
        var r := manager.RebuildPositionPostings();
      case RebuildTree =>
        var r := manager.RebuildOpeningTreeIndex();
      case QueryMatches(hash, limit, skip) =>
        var r := manager.QueryPositionMatches(hash, limit, skip);
        if r.Ok? && !manager.disk.Crashed() {
          answers := [MatchesAnswer(manager.disk.games, hash, limit, skip, r.value)];
        }
      case QueryStats(hash) =>
        var r, unread := manager.QueryUnfilteredOpeningStats(hash);
        if r.Ok? && !manager.disk.Crashed() {
          answers := [StatsAnswer(manager.disk.games, hash, r.value, unread)];
        }
      case FindGames(hash, filter) =>
        var r := manager.FindGames(hash, filter);
        if r.Ok? && !manager.disk.Crashed() {
          answers := [PageAnswer(manager.disk.games, hash, filter, r.value)];
        }
      case QueryElos(hash, filter, width) =>
        var r := manager.QueryEloDistribution(hash, filter, width);
        if r.Ok? && !manager.disk.Crashed() {
          answers := [ElosAnswer(manager.disk.games, hash, filter, width, r.value)];
        }
    }
  }

  /** One process: its memory is gone afterwards, whether it closed the bundle or died on the way. */
  method RunSession(disk: Disk, s: Session) returns (answers: seq<Answer>)
    requires disk.Ok() && forall i :: 0 <= i < |s.commands| ==> CommandOk(s.commands[i])
    modifies disk
    ensures disk.Ok() && AllTruthful(answers, disk.config.rules)
  {
    hide DatabaseManager.Valid, BundleOk, Truthful, CommandOk;
    disk.Boot(s.effects);
    var manager := new DatabaseManager(disk);
    if s.create {
      var created := manager.Create();
    } else {
      var loaded := manager.Open();
    }
    answers := [];
    for k := 0 to |s.commands|
      invariant fresh(manager) && manager.disk == disk && manager.Valid()
      invariant AllTruthful(answers, disk.config.rules)
    {
      ValidMeansOk(manager);
      var more := Execute(manager, s.commands[k]);
      ValidMeansOk(manager);
      answers := answers + more;
    }
    if s.close {
      manager.Close();
    }
    ValidMeansOk(manager);
  }

  lemma ValidMeansOk(manager: DatabaseManager)
    requires manager.Valid()
    ensures manager.disk.Ok() && manager.config == manager.disk.config
  {
    hide BundleOk;
  }

  /**
   * Any run, from an empty directory: whatever the commands, failures and crash points, every successful query answers for the games
   * stored at that moment, and no file is written, renamed or removed while the manifest names it (the preconditions of Disk).
   */
  method Run(config: Config, sessions: seq<Session>) returns (disk: Disk, answers: seq<Answer>)
    requires forall i, k :: 0 <= i < |sessions| && 0 <= k < |sessions[i].commands| ==> CommandOk(sessions[i].commands[k])
    ensures disk.Ok() && AllTruthful(answers, config.rules)
  {
    hide BundleOk, Truthful, CommandOk;
    disk := new Disk(config);
    answers := [];
    for i := 0 to |sessions|
      invariant fresh(disk) && disk.Ok() && disk.config == config
      invariant AllTruthful(answers, config.rules)
    {
      var more := RunSession(disk, sessions[i]);
      answers := answers + more;
    }
  }
}
