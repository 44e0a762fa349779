/** Opening statistics replayed from postings: the slow path, for any set of allowed games. */
module PostingsReplay {
  import opened Words
  import opened SortedRuns
  import opened Aggregation
  import opened Chess
  import opened OpeningStats
  import opened PostingsLookup

  /** The stored games with an allowed id. */
  function Allowed(games: seq<StoredGame>, ids: set<nat>): seq<StoredGame> {
    if games == [] then []
    else Allowed(games[..|games| - 1], ids) + if games[|games| - 1].id in ids then [games[|games| - 1]] else []
  }

  lemma {:induction false} AllowedAre(games: seq<StoredGame>, ids: set<nat>)
    requires ValidStore(games)
    ensures ValidStore(Allowed(games, ids)) && forall g :: g in Allowed(games, ids) <==> g in games && g.id in ids
  {
    if games != [] {
      var front, last := games[..|games| - 1], games[|games| - 1];
      AllowedAre(front, ids);
      assert games == front + [last];
      var before := Allowed(front, ids);
      forall i | 0 <= i < |before|
        ensures before[i].id < last.id
      {
        assert before[i] in front;
        var j :| 0 <= j < |front| && front[j] == before[i];
        assert games[j] == before[i];
      }
      if last.id in ids {
        assert Allowed(games, ids)[|before|] in games;
      }
      forall i | 0 <= i < |before|
        ensures before[i] in games
      {
        assert before[i] in front;
      }
      forall i | 0 <= i < |games|
        ensures 0 < games[i].id <= U32_MAX && -1 <= games[i].result <= 1
      {
      }
    }
  }

  lemma SameId(games: seq<StoredGame>, g: StoredGame, h: StoredGame)
    requires ValidStore(games) && g in games && h in games && g.id == h.id
    ensures g == h
  {
    var i :| 0 <= i < |games| && games[i] == g;
    var j :| 0 <= j < |games| && games[j] == h;
  }

  /** get_game_contexts: the moves of the games that are asked for and stored. */
  ghost predicate ContextsOk(contexts: map<nat, seq<nat>>, games: seq<StoredGame>) {
    && (forall id :: id in contexts ==> exists g :: g in games && g.id == id)
    && (forall g :: g in games ==> g.id in contexts && contexts[g.id] == g.moves)
  }

  lemma ContextAdded(contexts: map<nat, seq<nat>>, games: seq<StoredGame>, g: StoredGame)
    requires ContextsOk(contexts, games) && forall h :: h in games ==> h.id != g.id
    ensures ContextsOk(contexts[g.id := g.moves], games + [g])
  {
    assert g in games + [g];
    forall id | id in contexts.Keys + {g.id}
      ensures exists h :: h in games + [g] && h.id == id
    {
      if id != g.id {
        var h :| h in games && h.id == id;
        assert h in games + [g];
      }
    }
  }

  lemma LaterId(games: seq<StoredGame>, ids: set<nat>, k: nat)
    requires ValidStore(games) && k < |games|
    ensures forall g :: g in Allowed(games[..k], ids) ==> g.id != games[k].id
  {
    AllowedAre(games[..k], ids);
    forall g | g in Allowed(games[..k], ids)
      ensures g.id != games[k].id
    {
      assert g in games[..k];
      var i :| 0 <= i < k && games[i] == g;
      assert games[i].id < games[k].id;
    }
  }

  method GetContexts(games: seq<StoredGame>, ids: set<nat>) returns (contexts: map<nat, seq<nat>>)
    requires ValidStore(games)
    ensures ContextsOk(contexts, Allowed(games, ids))
  {
    hide ValidStore, ContextsOk;
    contexts := map[];
    NoContexts();
    for k := 0 to |games|
      invariant ContextsOk(contexts, Allowed(games[..k], ids))
    {
      assert games[..k + 1][..k] == games[..k] && games[..k + 1][k] == games[k];
      LaterId(games, ids, k);
      if games[k].id in ids {
        ContextAdded(contexts, Allowed(games[..k], ids), games[k]);
        contexts := contexts[games[k].id := games[k].moves];
      } else {
        assert Allowed(games[..k], ids) + [] == Allowed(games[..k], ids);
      }
    }
    assert games[..|games|] == games;
  }

  lemma NoContexts()
    ensures ContextsOk(map[], [])
  {
  }

  /** An occurrence of a position in a stored game, with that game's metadata. */
  predicate OccursIn(m: Match, rules: Rules, g: StoredGame, hash: nat) {
    && m.id == g.id && m.ply <= |g.moves| && HashAt(rules, g, m.ply) == hash
    && m.result == g.result && m.whiteElo == g.whiteElo && m.blackElo == g.blackElo
  }

  /** All occurrences of a position over the stored games. */
  ghost predicate AllOccurrences(matches: seq<Match>, rules: Rules, games: seq<StoredGame>, hash: nat) {
    && (forall k :: 0 <= k < |matches| ==> OccursInSome(matches[k], rules, games, hash))
    && (forall g: StoredGame, ply: nat :: g in games && ply <= |g.moves| && HashAt(rules, g, ply) == hash ==> Listed(matches, g.id, ply))
  }

  ghost predicate OccursInSome(m: Match, rules: Rules, games: seq<StoredGame>, hash: nat) {
    exists g :: g in games && OccursIn(m, rules, g, hash)
  }

  predicate Listed(matches: seq<Match>, id: nat, ply: nat) {
    exists k :: 0 <= k < |matches| && matches[k].id == id && matches[k].ply == ply
  }

  /** The first occurrence at which a game plays an edge from the root. */
  datatype Direct = Direct(rootPly: nat, match_: Match)

  /** The (game, move, child) key of an occurrence that is continued in an allowed game. */
  function EdgeOf(m: Match, rules: Rules, contexts: map<nat, seq<nat>>): Option<Triple> {
    if m.id in contexts && m.ply < |contexts[m.id]|
    then Some(Triple(m.id, contexts[m.id][m.ply], HashAfter(rules, contexts[m.id][..m.ply + 1]))) else None
  }

  /** After the first k occurrences: each key has its lowest ply. */
  ghost predicate DirectOk(direct: map<Triple, Direct>, matches: seq<Match>, k: nat, rules: Rules, contexts: map<nat, seq<nat>>) {
    && k <= |matches|
    && (forall key :: key in direct ==>
          exists i :: 0 <= i < k && EdgeOf(matches[i], rules, contexts) == Some(key) && direct[key] == Direct(matches[i].ply, matches[i]))
    && (forall i :: 0 <= i < k ==>
          var key := EdgeOf(matches[i], rules, contexts);
          key.Some? ==> key.value in direct && direct[key.value].rootPly <= matches[i].ply)
  }

  method CollectDirect(matches: seq<Match>, rules: Rules, contexts: map<nat, seq<nat>>) returns (direct: map<Triple, Direct>)
    ensures DirectOk(direct, matches, |matches|, rules, contexts)
  {
    hide HashAfter;
    direct := map[];
    for k := 0 to |matches|
      invariant DirectOk(direct, matches, k, rules, contexts)
    {
      var m := matches[k];
      if m.id in contexts && m.ply < |contexts[m.id]| {
        var childHash := ReplayTo(rules, contexts[m.id], m.ply + 1);
        var key := Triple(m.id, contexts[m.id][m.ply], childHash);
        if key !in direct || m.ply < direct[key].rootPly {
          DirectStep(direct, matches, k, rules, contexts, key);
          direct := direct[key := Direct(m.ply, m)];
        } else {
          DirectKept(direct, matches, k, rules, contexts);
        }
      } else {
        DirectKept(direct, matches, k, rules, contexts);
      }
    }
  }

  /** motif::chess::replay, up to a ply. */
  method ReplayTo(rules: Rules, moves: seq<nat>, ply: nat) returns (hash: nat)
    requires ply <= |moves|
    ensures hash == HashAfter(rules, moves[..ply])
  {
    var board := rules.start;
    assert moves[..0] == [];
    for k := 0 to ply
      invariant board == After(rules, moves[..k])
    {
      AfterStep(rules, moves, k);
      board := (rules.step)(board, moves[k]);
    }
    return (rules.hash)(board);
  }

  lemma DirectStep(direct: map<Triple, Direct>, matches: seq<Match>, k: nat, rules: Rules, contexts: map<nat, seq<nat>>, key: Triple)
    requires DirectOk(direct, matches, k, rules, contexts) && k < |matches| && EdgeOf(matches[k], rules, contexts) == Some(key)
    requires key !in direct || matches[k].ply < direct[key].rootPly
    ensures DirectOk(direct[key := Direct(matches[k].ply, matches[k])], matches, k + 1, rules, contexts)
  {
    hide EdgeOf;
    var direct' := direct[key := Direct(matches[k].ply, matches[k])];
    forall other | other in direct'
      ensures exists i :: 0 <= i < k + 1 && EdgeOf(matches[i], rules, contexts) == Some(other) && direct'[other] == Direct(matches[i].ply, matches[i])
    {
      if other == key {
        assert EdgeOf(matches[k], rules, contexts) == Some(key);
      } else {
        var i :| 0 <= i < k && EdgeOf(matches[i], rules, contexts) == Some(other) && direct[other] == Direct(matches[i].ply, matches[i]);
        assert direct'[other] == Direct(matches[i].ply, matches[i]);
      }
    }
  }

  lemma DirectKept(direct: map<Triple, Direct>, matches: seq<Match>, k: nat, rules: Rules, contexts: map<nat, seq<nat>>)
    requires DirectOk(direct, matches, k, rules, contexts) && k < |matches|
    requires
      var key := EdgeOf(matches[k], rules, contexts);
      key.Some? ==> key.value in direct && direct[key.value].rootPly <= matches[k].ply
    ensures DirectOk(direct, matches, k + 1, rules, contexts)
  {
    hide EdgeOf;
    forall key | key in direct
      ensures exists i :: 0 <= i < k + 1 && EdgeOf(matches[i], rules, contexts) == Some(key) && direct[key] == Direct(matches[i].ply, matches[i])
    {
      var i :| 0 <= i < k && EdgeOf(matches[i], rules, contexts) == Some(key) && direct[key] == Direct(matches[i].ply, matches[i]);
      assert direct[key] == Direct(matches[i].ply, matches[i]);
    }
  }

  function MatchAgg(d: Direct): Agg {
    GameAgg(StoredGame(d.match_.id, [], d.match_.result, d.match_.whiteElo, d.match_.blackElo), d.rootPly)
  }

  lemma {:induction false} FirstPlyIs(rules: Rules, cap: nat, g: StoredGame, key: Triple, p: nat)
    requires |g.moves| <= cap && p < |g.moves| && EdgeKey(rules, g, p) == key
    requires forall q: nat :: q < p ==> EdgeKey(rules, g, q) != key
    ensures FirstPly(rules, cap, g, key, |g.moves|) == Some(p)
  {
    hide HashAfter;
    var first := FirstPly(rules, cap, g, key, |g.moves|);
    assert Covered(rules, cap, g, p);
  }

  /** Some occurrence at ply q is continued by the edge. */
  ghost predicate EdgeSeen(matches: seq<Match>, rules: Rules, contexts: map<nat, seq<nat>>, q: nat, t: Triple) {
    exists k :: 0 <= k < |matches| && matches[k].ply == q && EdgeOf(matches[k], rules, contexts) == Some(t)
  }

  lemma OccurrenceHasEdge(matches: seq<Match>, rules: Rules, contexts: map<nat, seq<nat>>, games: seq<StoredGame>,
                          counted: seq<StoredGame>, hash: nat, g: StoredGame, q: nat)
    requires AllOccurrences(matches, rules, games, hash) && ContextsOk(contexts, counted)
    requires g in counted && g in games && q < |g.moves| && HashAt(rules, g, q) == hash
    ensures EdgeSeen(matches, rules, contexts, q, Triple(g.id, g.moves[q], HashAt(rules, g, q + 1)))
  {
    hide HashAfter;
    assert Listed(matches, g.id, q);
    var k :| 0 <= k < |matches| && matches[k].id == g.id && matches[k].ply == q;
    assert EdgeOf(matches[k], rules, contexts) == Some(Triple(g.id, g.moves[q], HashAt(rules, g, q + 1)));
  }

  lemma EdgeOfMatch(m: Match, rules: Rules, contexts: map<nat, seq<nat>>, counted: seq<StoredGame>, g: StoredGame, t: Triple)
    requires EdgeOf(m, rules, contexts) == Some(t) && ContextsOk(contexts, counted) && g in counted && t.first == g.id
    ensures m.id == g.id && m.ply < |g.moves| && t.second == g.moves[m.ply] && t.third == HashAt(rules, g, m.ply + 1)
  {
    hide HashAfter;
  }

  lemma MatchAggIs(d: Direct, g: StoredGame)
    requires d.match_.id == g.id && d.match_.result == g.result && d.match_.whiteElo == g.whiteElo && d.match_.blackElo == g.blackElo
    ensures MatchAgg(d) == GameAgg(g, d.rootPly)
  {
  }

  /** A recorded contribution of an allowed game comes from that game's first such edge. */
  lemma RecordedDirect(direct: map<Triple, Direct>, matches: seq<Match>, rules: Rules, contexts: map<nat, seq<nat>>,
                       games: seq<StoredGame>, counted: seq<StoredGame>, hash: nat, g: StoredGame, t: Triple)
    requires DirectOk(direct, matches, |matches|, rules, contexts) && t in direct && t.first == g.id
    requires AllOccurrences(matches, rules, games, hash) && ContextsOk(contexts, counted)
    requires ValidStore(games) && g in counted && g in games
    ensures
      var p := direct[t].rootPly;
      && p < |g.moves| && EdgeKey(rules, g, p) == Triple(hash, t.second, t.third)
      && MatchAgg(direct[t]) == GameAgg(g, p)
      && forall i :: 0 <= i < |matches| && EdgeOf(matches[i], rules, contexts) == Some(t) ==> p <= matches[i].ply
  {
    hide HashAfter, ValidStore, EdgeOf, MatchAgg, GameAgg, ContextsOk;
    var i :| 0 <= i < |matches| && EdgeOf(matches[i], rules, contexts) == Some(t) && direct[t] == Direct(matches[i].ply, matches[i]);
    assert OccursInSome(matches[i], rules, games, hash);
    var h :| h in games && OccursIn(matches[i], rules, h, hash);
    EdgeOfMatch(matches[i], rules, contexts, counted, g, t);
    SameId(games, g, h);
    MatchAggIs(direct[t], g);
  }

  /** The direct contribution of an allowed game to an edge is the game's naive contribution. */
  lemma DirectIsContribution(direct: map<Triple, Direct>, matches: seq<Match>, rules: Rules, contexts: map<nat, seq<nat>>,
                             games: seq<StoredGame>, counted: seq<StoredGame>, hash: nat, g: StoredGame, move: nat, child: nat, cap: nat)
    requires DirectOk(direct, matches, |matches|, rules, contexts)
    requires AllOccurrences(matches, rules, games, hash) && ContextsOk(contexts, counted)
    requires ValidStore(games) && g in counted && g in games && |g.moves| <= cap
    ensures
      var t := Triple(g.id, move, child);
      Contribution(rules, cap, g, Triple(hash, move, child)) == if t in direct then Some(MatchAgg(direct[t])) else None
  {
    hide HashAfter, AllOccurrences, ContextsOk, ValidStore, EdgeOf, DirectOk;
    var t, key := Triple(g.id, move, child), Triple(hash, move, child);
    forall q: nat | q < |g.moves| && EdgeKey(rules, g, q) == key
      ensures EdgeSeen(matches, rules, contexts, q, t)
    {
      OccurrenceHasEdge(matches, rules, contexts, games, counted, hash, g, q);
    }
    if t in direct {
      RecordedDirect(direct, matches, rules, contexts, games, counted, hash, g, t);
      FirstPlyIs(rules, cap, g, key, direct[t].rootPly);
    } else {
      Unrecorded(direct, matches, rules, contexts, t);
    }
  }

  lemma Unrecorded(direct: map<Triple, Direct>, matches: seq<Match>, rules: Rules, contexts: map<nat, seq<nat>>, t: Triple)
    requires DirectOk(direct, matches, |matches|, rules, contexts) && t !in direct
    ensures forall q :: !EdgeSeen(matches, rules, contexts, q, t)
  {
    hide EdgeOf;
  }

  // Aggregation over the direct contributions, in any order.

  function DirectAt(direct: map<Triple, Direct>, done: set<Triple>, id: nat, key: Triple): Option<Agg> {
    var t := Triple(id, key.second, key.third);
    if t in done && t in direct then Some(MatchAgg(direct[t])) else None
  }

  /** The aggregate of an edge over the contributions processed so far. */
  function Processed(direct: map<Triple, Direct>, done: set<Triple>, games: seq<StoredGame>, key: Triple): Option<Agg> {
    if games == [] then None
    else Both(Add, Processed(direct, done, games[..|games| - 1], key), DirectAt(direct, done, games[|games| - 1].id, key))
  }

  lemma {:induction false} ProcessedSame(direct: map<Triple, Direct>, done: set<Triple>, games: seq<StoredGame>, t: Triple, key: Triple)
    requires (forall g :: g in games ==> g.id != t.first) || key.second != t.second || key.third != t.third
    ensures Processed(direct, done + {t}, games, key) == Processed(direct, done, games, key)
  {
    hide MatchAgg;
    if games != [] {
      ProcessedSame(direct, done, games[..|games| - 1], t, key);
    }
  }

  /** One more contribution is added to its edge, wherever its game stands in the store. */
  lemma {:induction false} ProcessedGrows(direct: map<Triple, Direct>, done: set<Triple>, games: seq<StoredGame>, t: Triple, key: Triple)
    requires ValidStore(games) && t in direct && t !in done && key.second == t.second && key.third == t.third
    requires exists g :: g in games && g.id == t.first
    ensures Processed(direct, done + {t}, games, key) == Both(Add, Processed(direct, done, games, key), Some(MatchAgg(direct[t])))
  {
    hide MatchAgg, Both, Add, ValidStore;
    var front, last := games[..|games| - 1], games[|games| - 1];
    assert games == front + [last];
    FrontIsStore(games);
    if last.id == t.first {
      ProcessedSame(direct, done, front, t, key);
      BothNothingIs(Processed(direct, done, front, key));
    } else {
      var g :| g in games && g.id == t.first;
      assert g in front;
      ProcessedGrows(direct, done, front, t, key);
      LastTwoSwap(Processed(direct, done, front, key), DirectAt(direct, done, last.id, key), Some(MatchAgg(direct[t])));
    }
  }

  lemma LastTwoSwap(x: Option<Agg>, y: Option<Agg>, z: Option<Agg>)
    ensures Both(Add, Both(Add, x, z), y) == Both(Add, Both(Add, x, y), z)
  {
    AddIsLawful();
    hide Lawful, Both, Add;
    BothAssociates(Add, x, z, y);
    BothAssociates(Add, x, y, z);
    BothCommutes(Add, y, z);
  }

  lemma FrontIsStore(games: seq<StoredGame>)
    requires ValidStore(games) && games != []
    ensures ValidStore(games[..|games| - 1])
    ensures forall g :: g in games[..|games| - 1] ==> g.id != games[|games| - 1].id
  {
    var front := games[..|games| - 1];
    forall g | g in front
      ensures g.id != games[|games| - 1].id
    {
      var i :| 0 <= i < |front| && front[i] == g;
      assert games[i].id < games[|games| - 1].id;
    }
  }

  lemma BothNothingIs(x: Option<Agg>)
    ensures Both(Add, x, None) == x
  {
  }

  lemma {:induction false} NothingProcessed(direct: map<Triple, Direct>, games: seq<StoredGame>, key: Triple)
    ensures Processed(direct, {}, games, key) == None
  {
    if games != [] {
      NothingProcessed(direct, games[..|games| - 1], key);
    }
  }

  /** With every contribution processed, the aggregate of an edge is the naive one. */
  lemma {:induction false} AllProcessed(direct: map<Triple, Direct>, matches: seq<Match>, rules: Rules, contexts: map<nat, seq<nat>>,
                                        games: seq<StoredGame>, counted: seq<StoredGame>, part: seq<StoredGame>, hash: nat, key: Triple, cap: nat)
    requires DirectOk(direct, matches, |matches|, rules, contexts) && AllOccurrences(matches, rules, games, hash)
    requires ContextsOk(contexts, counted) && ValidStore(games) && key.first == hash
    requires (forall h :: h in counted ==> h in games && |h.moves| <= cap) && forall g :: g in part ==> g in counted
    ensures Processed(direct, direct.Keys, part, key) == NaiveEdge(rules, cap, part, key)
    decreases |part|
  {
    hide DirectOk, AllOccurrences, ContextsOk, MatchAgg, Contribution, ValidStore;
    if part != [] {
      var front, last := part[..|part| - 1], part[|part| - 1];
      AllProcessed(direct, matches, rules, contexts, games, counted, front, hash, key, cap);
      assert last in part;
      DirectIsContribution(direct, matches, rules, contexts, games, counted, hash, last, key.second, key.third, cap);
    }
  }

  /** The aggregates map after some contributions. */
  ghost predicate AggregatesOk(aggregates: map<Triple, Agg>, direct: map<Triple, Direct>, done: set<Triple>, games: seq<StoredGame>, hash: nat) {
    && (forall key :: key in aggregates ==> key.first == hash && aggregates[key].frequency > 0)
    && (forall key: Triple :: key.first == hash ==>
          (if key in aggregates then Some(aggregates[key]) else None) == Processed(direct, done, games, key))
  }

  /** The aggregate of one more contribution, as the loop over direct contributions updates it. */
  method NoteContribution(before: Option<Agg>, d: Direct) returns (a: Agg)
    requires before.Some? ==> before.value.frequency > 0
    ensures Some(a) == Both(Add, before, Some(MatchAgg(d))) && a.frequency > 0
  {
    var m := d.match_;
    a := if before.Some? then before.value else Agg(0, 0, 0, 0, 0, 0, 0, 0, 0, 0, 0, 0, 0);
    if a.frequency == 0 {
      a := a.(rootPly := d.rootPly, ecoMin := m.id, ecoMax := m.id);
    }
    a := a.(rootPly := Min(a.rootPly, d.rootPly), ecoMin := Min(a.ecoMin, m.id), ecoMax := Max(a.ecoMax, m.id));
    if m.result > 0 {
      a := a.(whiteWins := a.whiteWins + 1);
    } else if m.result < 0 {
      a := a.(blackWins := a.blackWins + 1);
    } else {
      a := a.(draws := a.draws + 1);
    }
    if m.whiteElo.Some? {
      a := a.(whiteEloSum := a.whiteEloSum + m.whiteElo.value, whiteEloCount := a.whiteEloCount + 1);
    }
    if m.blackElo.Some? {
      a := a.(blackEloSum := a.blackEloSum + m.blackElo.value, blackEloCount := a.blackEloCount + 1);
    }
    if m.whiteElo.Some? && m.blackElo.Some? {
      var doubled := m.whiteElo.value + m.blackElo.value;
      a := a.(weightedContrib := a.weightedContrib + m.result * doubled, eloWeight := a.eloWeight + doubled);
    }
    a := a.(frequency := a.frequency + 1);
  }

  lemma AggregatesStep(aggregates: map<Triple, Agg>, direct: map<Triple, Direct>, done: set<Triple>, games: seq<StoredGame>, hash: nat,
                       t: Triple, a: Agg)
    requires AggregatesOk(aggregates, direct, done, games, hash) && ValidStore(games)
    requires t in direct && t !in done && exists g :: g in games && g.id == t.first
    requires
      var key := Triple(hash, t.second, t.third);
      Some(a) == Both(Add, if key in aggregates then Some(aggregates[key]) else None, Some(MatchAgg(direct[t]))) && a.frequency > 0
    ensures AggregatesOk(aggregates[Triple(hash, t.second, t.third) := a], direct, done + {t}, games, hash)
  {
    hide Processed, MatchAgg, Both, ValidStore, Add;
    var key := Triple(hash, t.second, t.third);
    var aggregates' := aggregates[key := a];
    forall other: Triple | other.first == hash
      ensures (if other in aggregates' then Some(aggregates'[other]) else None) == Processed(direct, done + {t}, games, other)
    {
      if other == key {
        ProcessedGrows(direct, done, games, t, key);
      } else {
        ProcessedSame(direct, done, games, t, other);
      }
    }
  }

  lemma NoAggregates(direct: map<Triple, Direct>, games: seq<StoredGame>, hash: nat)
    ensures AggregatesOk(map[], direct, {}, games, hash)
  {
    forall key
      ensures Processed(direct, {}, games, key) == None
    {
      NothingProcessed(direct, games, key);
    }
  }

  method AggregateDirect(direct: map<Triple, Direct>, hash: nat, ghost games: seq<StoredGame>) returns (aggregates: map<Triple, Agg>)
    requires ValidStore(games) && forall t :: t in direct ==> exists g :: g in games && g.id == t.first
    ensures AggregatesOk(aggregates, direct, direct.Keys, games, hash)
  {
    hide Processed, MatchAgg, Both, ValidStore, AggregatesOk;
    aggregates := map[];
    var rest, done := direct.Keys, {};
    NoAggregates(direct, games, hash);
    while rest != {}
      invariant rest + done == direct.Keys && rest !! done
      invariant AggregatesOk(aggregates, direct, done, games, hash)
      decreases |rest|
    {
      var t :| t in rest;
      var key := Triple(hash, t.second, t.third);
      CountedAggregate(aggregates, direct, done, games, hash, key);
      var a := NoteContribution(if key in aggregates then Some(aggregates[key]) else None, direct[t]);
      AggregatesStep(aggregates, direct, done, games, hash, t, a);
      aggregates := aggregates[key := a];
      rest, done := rest - {t}, done + {t};
    }
    assert done == direct.Keys;
  }

  lemma CountedAggregate(aggregates: map<Triple, Agg>, direct: map<Triple, Direct>, done: set<Triple>, games: seq<StoredGame>, hash: nat, key: Triple)
    requires AggregatesOk(aggregates, direct, done, games, hash) && key.first == hash
    ensures key in aggregates ==> aggregates[key].frequency > 0
  {
  }

  // Rows in key order.

  predicate IsLeastKey(keys: set<Triple>, key: Triple) {
    key in keys && forall other :: other in keys ==> !Less(other, key)
  }

  lemma {:induction false} LeastKeyExists(keys: set<Triple>)
    requires keys != {}
    ensures exists key :: key in keys && IsLeastKey(keys, key)
  {
    var key :| key in keys;
    if keys == {key} {
      assert IsLeastKey(keys, key);
    } else {
      LeastKeyExists(keys - {key});
      var other :| other in keys - {key} && IsLeastKey(keys - {key}, other);
      assert forall x :: x in keys ==> x == key || x in keys - {key};
      assert IsLeastKey(keys, if Less(other, key) then other else key);
    }
  }

  /** One row per aggregate, in the order of the (move, child) map. */
  ghost predicate RowsOk(rows: seq<StatRow>, aggregates: map<Triple, Agg>, done: set<Triple>, counts: nat -> nat, hash: nat) {
    && (forall i, j :: 0 <= i < j < |rows| ==> Less(RowKey(hash, rows[i]), RowKey(hash, rows[j])))
    && (forall i :: 0 <= i < |rows| ==>
          var key := RowKey(hash, rows[i]); key in done && key in aggregates && rows[i] == RowOf(key, aggregates[key], counts(key.third)))
    && (forall key :: key in done ==> exists i :: 0 <= i < |rows| && RowKey(hash, rows[i]) == key)
  }

  predicate Precedes(done: set<Triple>, rest: set<Triple>) {
    forall a, b :: a in done && b in rest ==> Less(a, b)
  }

  lemma LeastPrecedes(done: set<Triple>, rest: set<Triple>, key: Triple)
    requires Precedes(done, rest) && IsLeastKey(rest, key)
    ensures (forall a :: a in done ==> Less(a, key)) && Precedes(done + {key}, rest - {key})
  {
  }

  lemma NoRows(aggregates: map<Triple, Agg>, counts: nat -> nat, hash: nat, rest: set<Triple>)
    ensures RowsOk([], aggregates, {}, counts, hash) && Precedes({}, rest)
  {
  }

  /** One row; here the score is missing for a zero weight, which for non-negative Elos is when the index leaves it out. */
  method EmitRow(key: Triple, a: Agg, transposition: nat) returns (row: StatRow)
    requires a.eloWeight >= 0
    ensures row == RowOf(key, a, transposition)
  {
    return StatRow(key.second, key.third, a.rootPly, a.frequency, transposition, a.whiteWins, a.draws, a.blackWins,
                   Average(a.whiteEloSum, a.whiteEloCount), Average(a.blackEloSum, a.blackEloCount), a.ecoMin, a.ecoMax,
                   if a.eloWeight == 0 then None else Some(a.weightedContrib as real / a.eloWeight as real));
  }

  method EmitRows(aggregates: map<Triple, Agg>, childCounts: map<nat, nat>, hash: nat, ghost counts: nat -> nat) returns (rows: seq<StatRow>)
    requires forall key :: key in aggregates ==>
      key.first == hash && aggregates[key].eloWeight >= 0 && key.third in childCounts && childCounts[key.third] == counts(key.third)
    ensures RowsOk(rows, aggregates, aggregates.Keys, counts, hash)
  {
    hide RowsOk, Precedes, IsLeastKey, Less, RowOf;
    rows := [];
    var rest, done := aggregates.Keys, {};
    NoRows(aggregates, counts, hash, rest);
    while rest != {}
      invariant rest + done == aggregates.Keys && rest !! done
      invariant RowsOk(rows, aggregates, done, counts, hash)
      invariant Precedes(done, rest)
      decreases |rest|
    {
      LeastKeyExists(rest);
      var key :| key in rest && IsLeastKey(rest, key);
      LeastPrecedes(done, rest, key);
      var a := aggregates[key];
      var row := EmitRow(key, a, childCounts[key.third]);
      RowAdded(rows, aggregates, done, counts, hash, key, row);
      rows := rows + [row];
      rest, done := rest - {key}, done + {key};
    }
    assert done == aggregates.Keys;
  }

  lemma RowAdded(rows: seq<StatRow>, aggregates: map<Triple, Agg>, done: set<Triple>, counts: nat -> nat, hash: nat, key: Triple, row: StatRow)
    requires RowsOk(rows, aggregates, done, counts, hash) && key in aggregates && key !in done && key.first == hash
    requires (forall a :: a in done ==> Less(a, key)) && row == RowOf(key, aggregates[key], counts(key.third))
    ensures RowsOk(rows + [row], aggregates, done + {key}, counts, hash)
  {
    hide RowOf;
    var rows' := rows + [row];
    assert RowKey(hash, row) == key by { RowOfKey(key, aggregates[key], counts(key.third)); }
    forall other | other in done + {key}
      ensures exists i :: 0 <= i < |rows'| && RowKey(hash, rows'[i]) == other
    {
      if other == key {
        assert RowKey(hash, rows'[|rows|]) == key;
      } else {
        var i :| 0 <= i < |rows| && RowKey(hash, rows[i]) == other;
        assert RowKey(hash, rows'[i]) == other;
      }
    }
  }

  lemma RowOfKey(key: Triple, a: Agg, n: nat)
    ensures RowOf(key, a, n).move == key.second && RowOf(key, a, n).child == key.third
  {
  }

  /** The counts after the games in `done`. */
  ghost predicate ChildrenCounted(childCounts: map<nat, nat>, rules: Rules, children: set<nat>, counted: seq<StoredGame>, done: set<nat>) {
    childCounts.Keys == children && forall h :: h in children ==> childCounts[h] == VisitedIn(rules, counted, done, h)
  }

  lemma ChildrenStep(childCounts: map<nat, nat>, rules: Rules, children: set<nat>, contexts: map<nat, seq<nat>>, counted: seq<StoredGame>,
                     done: set<nat>, id: nat, visited: set<nat>)
    requires ChildrenCounted(childCounts, rules, children, counted, done) && ContextsOk(contexts, counted) && ValidStore(counted)
    requires id in contexts && id !in done
    requires forall h :: h in visited <==> exists p: nat :: p <= |contexts[id]| && HashAfter(rules, contexts[id][..p]) == h
    ensures ChildrenCounted(map h | h in children :: childCounts[h] + if h in visited then 1 else 0, rules, children, counted, done + {id})
  {
    hide VisitedIn, ReachesBy, HashAfter, ContextsOk, ValidStore;
    ContextOfGame(contexts, counted, id);
    var g :| g in counted && g.id == id && g.moves == contexts[id];
    forall h
      ensures VisitedIn(rules, counted, done + {id}, h) == VisitedIn(rules, counted, done, h) + One(h in visited)
    {
      VisitedMore(rules, counted, done, g, h);
      VisitsBy(rules, g, visited, h);
    }
  }

  /** The non-global child counts: every allowed game is replayed once against the children of interest. */
  method CountChildren(contexts: map<nat, seq<nat>>, rules: Rules, children: set<nat>, ghost counted: seq<StoredGame>)
    returns (childCounts: map<nat, nat>)
    requires ContextsOk(contexts, counted) && ValidStore(counted)
    ensures childCounts.Keys == children && forall h :: h in children ==> childCounts[h] == VisitCount(rules, counted, h)
  {
    hide ReachesBy, HashAfter, ContextsOk, ValidStore, VisitedIn, ChildrenCounted;
    childCounts := map h | h in children :: 0;
    var rest, done := contexts.Keys, {};
    NothingCounted(rules, children, counted);
    while rest != {}
      invariant rest + done == contexts.Keys && rest !! done
      invariant ChildrenCounted(childCounts, rules, children, counted, done)
      decreases |rest|
    {
      var id :| id in rest;
      var visited := ReplayHashes(rules, contexts[id]);
      ChildrenStep(childCounts, rules, children, contexts, counted, done, id, visited);
      ChildKeys(childCounts, rules, children, counted, done);
      childCounts := map h | h in children :: childCounts[h] + if h in visited then 1 else 0;
      rest, done := rest - {id}, done + {id};
    }
    assert done == contexts.Keys;
    ChildrenTotal(childCounts, rules, children, contexts, counted);
  }

  lemma ChildKeys(childCounts: map<nat, nat>, rules: Rules, children: set<nat>, counted: seq<StoredGame>, done: set<nat>)
    requires ChildrenCounted(childCounts, rules, children, counted, done)
    ensures childCounts.Keys == children
  {
  }

  lemma NothingCounted(rules: Rules, children: set<nat>, counted: seq<StoredGame>)
    ensures ChildrenCounted(map h | h in children :: 0, rules, children, counted, {})
  {
    forall h
      ensures VisitedIn(rules, counted, {}, h) == 0
    {
      NoneVisited(rules, counted, h);
    }
  }

  lemma ChildrenTotal(childCounts: map<nat, nat>, rules: Rules, children: set<nat>, contexts: map<nat, seq<nat>>, counted: seq<StoredGame>)
    requires ChildrenCounted(childCounts, rules, children, counted, contexts.Keys) && ContextsOk(contexts, counted)
    ensures childCounts.Keys == children && forall h :: h in children ==> childCounts[h] == VisitCount(rules, counted, h)
  {
    hide ContextsOk;
    forall h | h in children
      ensures childCounts[h] == VisitCount(rules, counted, h)
    {
      AllVisited(rules, contexts, counted, counted, h);
    }
  }

  lemma ContextOfGame(contexts: map<nat, seq<nat>>, counted: seq<StoredGame>, id: nat)
    requires ContextsOk(contexts, counted) && id in contexts
    ensures exists g :: g in counted && g.id == id && g.moves == contexts[id]
  {
    var g :| g in counted && g.id == id;
    assert g.moves == contexts[id];
  }

  lemma VisitsBy(rules: Rules, g: StoredGame, visited: set<nat>, h: nat)
    requires forall x :: x in visited <==> exists p: nat :: p <= |g.moves| && HashAfter(rules, g.moves[..p]) == x
    ensures Visits(rules, g, h) <==> h in visited
  {
    hide HashAfter;
    if Visits(rules, g, h) {
      var p: nat :| p <= |g.moves| && HashAt(rules, g, p) == h;
      assert HashAfter(rules, g.moves[..p]) == h;
    }
    if h in visited {
      var p: nat :| p <= |g.moves| && HashAfter(rules, g.moves[..p]) == h;
      assert HashAt(rules, g, p) == h;
    }
  }

  method ReplayHashes(rules: Rules, moves: seq<nat>) returns (visited: set<nat>)
    ensures forall h :: h in visited <==> exists p: nat :: p <= |moves| && HashAfter(rules, moves[..p]) == h
  {
    var board := rules.start;
    assert moves[..0] == [];
    visited := {(rules.hash)(board)};
    forall h
      ensures h in visited <==> exists p: nat :: p <= 0 && HashAfter(rules, moves[..p]) == h
    {
      if h in visited {
        assert HashAfter(rules, moves[..0]) == h;
      }
    }
    for k := 0 to |moves|
      invariant board == After(rules, moves[..k])
      invariant forall h :: h in visited <==> exists p: nat :: p <= k && HashAfter(rules, moves[..p]) == h
    {
      AfterStep(rules, moves, k);
      board := (rules.step)(board, moves[k]);
      ghost var before := visited;
      visited := visited + {(rules.hash)(board)};
      forall h
        ensures h in visited <==> exists p: nat :: p <= k + 1 && HashAfter(rules, moves[..p]) == h
      {
        if h in before {
          var p: nat :| p <= k && HashAfter(rules, moves[..p]) == h;
          assert p <= k + 1;
        } else if h in visited {
          assert HashAfter(rules, moves[..k + 1]) == h;
        }
        if p: nat :| p <= k + 1 && HashAfter(rules, moves[..p]) == h {
          assert p <= k ==> h in before;
        }
      }
    }
  }

  ghost function VisitedIn(rules: Rules, games: seq<StoredGame>, ids: set<nat>, h: nat): nat {
    if games == [] then 0
    else
      VisitedIn(rules, games[..|games| - 1], ids, h)
      + One(games[|games| - 1].id in ids && Visits(rules, games[|games| - 1], h))
  }

  lemma {:induction false} NoneVisited(rules: Rules, games: seq<StoredGame>, h: nat)
    ensures VisitedIn(rules, games, {}, h) == 0
  {
    if games != [] {
      NoneVisited(rules, games[..|games| - 1], h);
    }
  }

  lemma {:induction false} VisitedSame(rules: Rules, games: seq<StoredGame>, ids: set<nat>, id: nat, h: nat)
    requires forall g :: g in games ==> g.id != id
    ensures VisitedIn(rules, games, ids + {id}, h) == VisitedIn(rules, games, ids, h)
  {
    if games != [] {
      VisitedSame(rules, games[..|games| - 1], ids, id, h);
    }
  }

  lemma {:induction false} VisitedMore(rules: Rules, games: seq<StoredGame>, ids: set<nat>, g: StoredGame, h: nat)
    requires ValidStore(games) && g in games && g.id !in ids
    ensures VisitedIn(rules, games, ids + {g.id}, h) == VisitedIn(rules, games, ids, h) + One(Visits(rules, g, h))
  {
    hide ReachesBy, ValidStore;
    var front, last := games[..|games| - 1], games[|games| - 1];
    assert games == front + [last];
    FrontIsStore(games);
    if last.id == g.id {
      SameId(games, last, g);
      VisitedSame(rules, front, ids, g.id, h);
    } else {
      VisitedMore(rules, front, ids, g, h);
    }
  }

  lemma {:induction false} AllVisited(rules: Rules, contexts: map<nat, seq<nat>>, counted: seq<StoredGame>, part: seq<StoredGame>, h: nat)
    requires ContextsOk(contexts, counted) && forall g :: g in part ==> g in counted
    ensures VisitedIn(rules, part, contexts.Keys, h) == VisitCount(rules, part, h)
    decreases |part|
  {
    hide ReachesBy;
    if part != [] {
      AllVisited(rules, contexts, counted, part[..|part| - 1], h);
      assert part[|part| - 1] in part;
    }
  }

  /** The replayed rows are the statistics over the counted games, with the transposition counts that were supplied. */
  lemma ReplayedStats(rows: seq<StatRow>, aggregates: map<Triple, Agg>, direct: map<Triple, Direct>, matches: seq<Match>, rules: Rules,
                      contexts: map<nat, seq<nat>>, games: seq<StoredGame>, counted: seq<StoredGame>, all: seq<StoredGame>, hash: nat, cap: nat,
                      counts: nat -> nat)
    requires RowsOk(rows, aggregates, aggregates.Keys, counts, hash) && AggregatesOk(aggregates, direct, direct.Keys, counted, hash)
    requires DirectOk(direct, matches, |matches|, rules, contexts) && AllOccurrences(matches, rules, games, hash)
    requires ContextsOk(contexts, counted) && ValidStore(games)
    requires forall h :: h in counted ==> h in games && |h.moves| <= cap
    requires forall key :: key in aggregates ==> counts(key.third) == VisitCount(rules, all, key.third)
    ensures IsStatsOver(rows, rules, cap, counted, all, hash)
  {
    hide DirectOk, AllOccurrences, ContextsOk, ValidStore, Processed, NaiveEdge, RowOf, VisitCount;
    forall key: Triple | key.first == hash
      ensures (if key in aggregates then Some(aggregates[key]) else None) == NaiveEdge(rules, cap, counted, key)
    {
      AllProcessed(direct, matches, rules, contexts, games, counted, counted, hash, key, cap);
    }
    forall i | 0 <= i < |rows|
      ensures
        var edge := NaiveEdge(rules, cap, counted, RowKey(hash, rows[i]));
        edge.Some? && rows[i] == RowOf(RowKey(hash, rows[i]), edge.value, VisitCount(rules, all, rows[i].child))
    {
      assert RowKey(hash, rows[i]).first == hash && RowKey(hash, rows[i]).third == rows[i].child;
    }
    forall move: nat, child: nat | NaiveEdge(rules, cap, counted, Triple(hash, move, child)).Some?
      ensures exists i :: 0 <= i < |rows| && RowKey(hash, rows[i]) == Triple(hash, move, child)
    {
      assert Triple(hash, move, child).first == hash;
      assert Triple(hash, move, child) in aggregates.Keys;
    }
  }
}
