/** What a row of opening statistics says, counted over the set of games that play its move; the aggregates say exactly that. */
module OpeningMeaning {
  import opened Words
  import opened SortedRuns
  import opened Aggregation
  import opened Chess
  import opened OpeningStats

  /** The game plays the move from the position, to the child, at that ply; a depth cap leaves out later plies but for the start position. */
  predicate PlaysAt(rules: Rules, cap: Option<nat>, g: StoredGame, hash: nat, move: nat, child: nat, p: nat) {
    && p < |g.moves| && HashAt(rules, g, p) == hash && g.moves[p] == move && HashAt(rules, g, p + 1) == child
    && (cap.None? || p <= cap.value || HashAt(rules, g, p) == HashAt(rules, g, 0))
  }

  ghost predicate PlaysEdge(rules: Rules, cap: Option<nat>, g: StoredGame, hash: nat, move: nat, child: nat) {
    exists p: nat :: PlaysAt(rules, cap, g, hash, move, child, p)
  }

  /** The games that play the move. */
  ghost function Players(rules: Rules, cap: Option<nat>, games: seq<StoredGame>, hash: nat, move: nat, child: nat): set<StoredGame> {
    set g | g in games && PlaysEdge(rules, cap, g, hash, move, child)
  }

  ghost function SumOver(s: set<StoredGame>, value: StoredGame -> int): int {
    if s == {} then 0 else
      var g :| g in s;
      value(g) + SumOver(s - {g}, value)
  }

  ghost function WithResult(s: set<StoredGame>, result: int): set<StoredGame> {
    set g | g in s && g.result == result
  }

  ghost function WhiteRated(s: set<StoredGame>): set<StoredGame> {
    set g | g in s && g.whiteElo.Some?
  }

  ghost function BlackRated(s: set<StoredGame>): set<StoredGame> {
    set g | g in s && g.blackElo.Some?
  }

  ghost function BothRated(s: set<StoredGame>): set<StoredGame> {
    set g | g in s && g.whiteElo.Some? && g.blackElo.Some?
  }

  ghost function WhiteElo(g: StoredGame): int {
    if g.whiteElo.Some? then g.whiteElo.value else 0
  }

  ghost function BlackElo(g: StoredGame): int {
    if g.blackElo.Some? then g.blackElo.value else 0
  }

  ghost function EloSum(g: StoredGame): int {
    WhiteElo(g) + BlackElo(g)
  }

  ghost function Score(g: StoredGame): int {
    g.result * EloSum(g)
  }

  /** The value times the count is the sum; there is no value for nothing. */
  predicate IsMean(value: Option<real>, sum: int, count: int) {
    if count == 0 then value.None? else value.Some? && value.value * count as real == sum as real
  }

  /** What a row says about the games that play its move, and about those that reach its child. */
  ghost predicate RowCounts(r: StatRow, players: set<StoredGame>, visitors: set<StoredGame>) {
    && r.frequency == |players| && r.transposition == |visitors|
    && r.whiteWins == |WithResult(players, 1)| && r.draws == |WithResult(players, 0)| && r.blackWins == |WithResult(players, -1)|
    && IsMean(r.avgWhiteElo, SumOver(WhiteRated(players), WhiteElo), |WhiteRated(players)|)
    && IsMean(r.avgBlackElo, SumOver(BlackRated(players), BlackElo), |BlackRated(players)|)
    && IsMean(r.eloWeightedScore, SumOver(BothRated(players), Score), SumOver(BothRated(players), EloSum))
    && (exists g :: g in players && g.id == r.ecoMin) && (exists g :: g in players && g.id == r.ecoMax)
    && (forall g :: g in players ==> r.ecoMin <= g.id <= r.ecoMax)
  }

  /** The first ply at which any game plays the move. */
  ghost predicate IsFirstPly(ply: nat, rules: Rules, cap: Option<nat>, games: seq<StoredGame>, hash: nat, move: nat, child: nat) {
    && (exists g :: g in games && PlaysAt(rules, cap, g, hash, move, child, ply))
    && (forall g, p: nat :: g in games && PlaysAt(rules, cap, g, hash, move, child, p) ==> ply <= p)
  }

  ghost function Visitors(rules: Rules, games: seq<StoredGame>, hash: nat): set<StoredGame> {
    set g | g in games && exists p: nat :: p <= |g.moves| && HashAt(rules, g, p) == hash
  }

  ghost predicate RowOfPlay(r: StatRow, rules: Rules, cap: Option<nat>, games: seq<StoredGame>, all: seq<StoredGame>, hash: nat) {
    && IsFirstPly(r.rootPly, rules, cap, games, hash, r.move, r.child)
    && RowCounts(r, Players(rules, cap, games, hash, r.move, r.child), Visitors(rules, all, r.child))
  }

  /** One row per move and child that some game plays from the position, ascending, each saying what holds of the games that play it. */
  ghost predicate StatsOfPlay(rows: seq<StatRow>, rules: Rules, cap: Option<nat>, games: seq<StoredGame>, all: seq<StoredGame>, hash: nat) {
    && (forall i, j :: 0 <= i < j < |rows| ==> rows[i].move < rows[j].move || (rows[i].move == rows[j].move && rows[i].child < rows[j].child))
    && (forall i :: 0 <= i < |rows| ==> RowOfPlay(rows[i], rules, cap, games, all, hash))
    && (forall g, move, child, p: nat :: g in games && PlaysAt(rules, cap, g, hash, move, child, p) ==> HasRow(rows, move, child))
  }

  predicate HasRow(rows: seq<StatRow>, move: nat, child: nat) {
    exists i :: 0 <= i < |rows| && rows[i].move == move && rows[i].child == child
  }

  // Sums and counts over one more game.

  lemma {:induction false} SumWithout(s: set<StoredGame>, g: StoredGame, value: StoredGame -> int)
    requires g in s
    ensures SumOver(s, value) == value(g) + SumOver(s - {g}, value)
    decreases |s|
  {
    var x :| x in s && SumOver(s, value) == value(x) + SumOver(s - {x}, value);
    if x != g {
      SumWithout(s - {x}, g, value);
      SumWithout(s - {g}, x, value);
      assert s - {x} - {g} == s - {g} - {x};
    }
  }

  lemma SumAdds(s: set<StoredGame>, g: StoredGame, value: StoredGame -> int)
    requires g !in s
    ensures SumOver(s + {g}, value) == SumOver(s, value) + value(g)
  {
    SumWithout(s + {g}, g, value);
    assert s + {g} - {g} == s;
  }

  lemma ResultAdds(s: set<StoredGame>, g: StoredGame, result: int)
    requires g !in s
    ensures |WithResult(s + {g}, result)| == |WithResult(s, result)| + if g.result == result then 1 else 0
  {
    if g.result == result {
      assert WithResult(s + {g}, result) == WithResult(s, result) + {g};
    } else {
      assert WithResult(s + {g}, result) == WithResult(s, result);
    }
  }

  lemma RatedAdds(s: set<StoredGame>, g: StoredGame)
    ensures WhiteRated(s + {g}) == WhiteRated(s) + if g.whiteElo.Some? then {g} else {}
    ensures BlackRated(s + {g}) == BlackRated(s) + if g.blackElo.Some? then {g} else {}
  {
  }

  /** An aggregate of a set of games. */
  ghost predicate AggIs(a: Agg, s: set<StoredGame>) {
    && a.frequency == |s|
    && a.whiteWins == |WithResult(s, 1)| && a.draws == |WithResult(s, 0)| && a.blackWins == |WithResult(s, -1)|
    && a.whiteEloSum == SumOver(WhiteRated(s), WhiteElo) && a.whiteEloCount == |WhiteRated(s)|
    && a.blackEloSum == SumOver(BlackRated(s), BlackElo) && a.blackEloCount == |BlackRated(s)|
    && a.weightedContrib == SumOver(BothRated(s), Score) && a.eloWeight == SumOver(BothRated(s), EloSum)
    && (s != {} ==> IdsAre(a, s))
  }

  ghost predicate IdsAre(a: Agg, s: set<StoredGame>) {
    && (exists g :: g in s && g.id == a.ecoMin) && (exists g :: g in s && g.id == a.ecoMax)
    && (forall g :: g in s ==> a.ecoMin <= g.id <= a.ecoMax)
  }

  lemma WhiteAdds(s: set<StoredGame>, g: StoredGame)
    requires g !in s
    ensures SumOver(WhiteRated(s + {g}), WhiteElo) == SumOver(WhiteRated(s), WhiteElo) + WhiteElo(g)
    ensures |WhiteRated(s + {g})| == |WhiteRated(s)| + if g.whiteElo.Some? then 1 else 0
  {
    RatedAdds(s, g);
    if g.whiteElo.Some? {
      SumAdds(WhiteRated(s), g, WhiteElo);
    } else {
      assert WhiteRated(s) + {} == WhiteRated(s);
    }
  }

  lemma BlackAdds(s: set<StoredGame>, g: StoredGame)
    requires g !in s
    ensures SumOver(BlackRated(s + {g}), BlackElo) == SumOver(BlackRated(s), BlackElo) + BlackElo(g)
    ensures |BlackRated(s + {g})| == |BlackRated(s)| + if g.blackElo.Some? then 1 else 0
  {
    RatedAdds(s, g);
    if g.blackElo.Some? {
      SumAdds(BlackRated(s), g, BlackElo);
    } else {
      assert BlackRated(s) + {} == BlackRated(s);
    }
  }

  lemma ScoreAdds(s: set<StoredGame>, g: StoredGame, value: StoredGame -> int)
    requires g !in s
    ensures
      SumOver(BothRated(s + {g}), value)
      == SumOver(BothRated(s), value) + if g.whiteElo.Some? && g.blackElo.Some? then value(g) else 0
  {
    var before, after := BothRated(s), BothRated(s + {g});
    if g.whiteElo.Some? && g.blackElo.Some? {
      assert after == before + {g};
      SumAdds(before, g, value);
    } else {
      assert after == before;
    }
  }

  lemma NothingCounted(a: Agg)
    requires a == Agg(a.rootPly, 0, 0, 0, 0, 0, 0, 0, 0, 0, 0, a.ecoMin, a.ecoMax)
    ensures AggIs(a, {})
  {
    assert WithResult({}, 1) == {} && WithResult({}, 0) == {} && WithResult({}, -1) == {};
    assert WhiteRated({}) == {} && BlackRated({}) == {} && BothRated({}) == {};
  }

  /** A game more: as the aggregates add it. */
  lemma GameAdds(a: Agg, s: set<StoredGame>, g: StoredGame, ply: nat)
    requires AggIs(a, s) && g !in s && -1 <= g.result <= 1 && s != {}
    ensures AggIs(Add(a, GameAgg(g, ply)), s + {g})
  {
    hide WhiteRated, BlackRated, BothRated, WithResult, SumOver;
    ResultAdds(s, g, 1);
    ResultAdds(s, g, 0);
    ResultAdds(s, g, -1);
    WhiteAdds(s, g);
    BlackAdds(s, g);
    ScoreAdds(s, g, Score);
    ScoreAdds(s, g, EloSum);
    IdsAdd(a, s, g, ply);
  }

  lemma IdsAdd(a: Agg, s: set<StoredGame>, g: StoredGame, ply: nat)
    requires IdsAre(a, s)
    ensures IdsAre(Add(a, GameAgg(g, ply)), s + {g})
  {
    var least :| least in s && least.id == a.ecoMin;
    var greatest :| greatest in s && greatest.id == a.ecoMax;
    assert least in s + {g} && greatest in s + {g} && g in s + {g};
  }

  lemma OneGame(g: StoredGame, ply: nat)
    requires -1 <= g.result <= 1
    ensures AggIs(GameAgg(g, ply), {g})
  {
    hide WhiteRated, BlackRated, BothRated, WithResult, SumOver;
    var none := Agg(ply, 0, 0, 0, 0, 0, 0, 0, 0, 0, 0, g.id, g.id);
    NothingCounted(none);
    ResultAdds({}, g, 1);
    ResultAdds({}, g, 0);
    ResultAdds({}, g, -1);
    WhiteAdds({}, g);
    BlackAdds({}, g);
    ScoreAdds({}, g, Score);
    ScoreAdds({}, g, EloSum);
    assert {} + {g} == {g};
    assert g in {g};
  }

  // The naive aggregate of an edge.

  /** A game's first covered ply is the first at which it plays the move. */
  lemma FirstIs(rules: Rules, cap: nat, g: StoredGame, key: Triple)
    ensures
      var p := FirstPly(rules, cap, g, key, |g.moves|);
      && (p.Some? <==> PlaysEdge(rules, Some(cap), g, key.first, key.second, key.third))
      && (p.Some? ==> PlaysAt(rules, Some(cap), g, key.first, key.second, key.third, p.value))
      && (p.Some? ==> forall q: nat :: PlaysAt(rules, Some(cap), g, key.first, key.second, key.third, q) ==> p.value <= q)
  {
    hide FirstPly, HashAfter;
    assert g.moves[..0] == [];
    assert HashAt(rules, g, 0) == StartHash(rules);
    var p := FirstPly(rules, cap, g, key, |g.moves|);
    forall q: nat | PlaysAt(rules, Some(cap), g, key.first, key.second, key.third, q)
      ensures p.Some? && p.value <= q
    {
      assert Covered(rules, cap, g, q) && EdgeKey(rules, g, q) == key;
    }
    if p.Some? {
      assert PlaysAt(rules, Some(cap), g, key.first, key.second, key.third, p.value);
    }
  }

  lemma PlayersGrow(rules: Rules, cap: Option<nat>, front: seq<StoredGame>, g: StoredGame, hash: nat, move: nat, child: nat)
    ensures
      Players(rules, cap, front + [g], hash, move, child)
      == Players(rules, cap, front, hash, move, child) + if PlaysEdge(rules, cap, g, hash, move, child) then {g} else {}
  {
    hide PlaysEdge;
  }

  lemma LastIsNew(games: seq<StoredGame>)
    requires ValidStore(games) && games != []
    ensures games[|games| - 1] !in games[..|games| - 1] && games == games[..|games| - 1] + [games[|games| - 1]]
    ensures ValidStore(games[..|games| - 1]) && -1 <= games[|games| - 1].result <= 1
  {
    var front, last := games[..|games| - 1], games[|games| - 1];
    forall g | g in front
      ensures g.id < last.id
    {
      var i :| 0 <= i < |front| && front[i] == g;
      assert games[i] == g;
    }
  }

  lemma FirstPlyGrows(ply: nat, rules: Rules, cap: Option<nat>, front: seq<StoredGame>, g: StoredGame, hash: nat, move: nat, child: nat, p: nat)
    requires
      || IsFirstPly(ply, rules, cap, front, hash, move, child)
      || (ply == p && !exists h, q: nat :: h in front && PlaysAt(rules, cap, h, hash, move, child, q))
    requires PlaysAt(rules, cap, g, hash, move, child, p) && forall q: nat :: PlaysAt(rules, cap, g, hash, move, child, q) ==> p <= q
    ensures IsFirstPly(Min(ply, p), rules, cap, front + [g], hash, move, child)
  {
    hide PlaysAt;
    assert g in front + [g];
    if ply < p {
      var h :| h in front && PlaysAt(rules, cap, h, hash, move, child, ply);
      assert h in front + [g];
    }
  }

  lemma NoneMore(ply: nat, rules: Rules, cap: Option<nat>, front: seq<StoredGame>, g: StoredGame, hash: nat, move: nat, child: nat)
    requires IsFirstPly(ply, rules, cap, front, hash, move, child) && !PlaysEdge(rules, cap, g, hash, move, child)
    ensures IsFirstPly(ply, rules, cap, front + [g], hash, move, child)
  {
    hide PlaysAt;
    var h :| h in front && PlaysAt(rules, cap, h, hash, move, child, ply);
    assert h in front + [g];
  }

  /** The aggregate is that of exactly the games that play the move, and its ply the first of theirs. */
  ghost predicate EdgeOfPlay(edge: Option<Agg>, rules: Rules, cap: Option<nat>, games: seq<StoredGame>, key: Triple) {
    var players := Players(rules, cap, games, key.first, key.second, key.third);
    && (edge.None? <==> players == {})
    && (edge.Some? ==> AggIs(edge.value, players) && IsFirstPly(edge.value.rootPly, rules, cap, games, key.first, key.second, key.third))
  }

  lemma EdgeGrows(before: Option<Agg>, rules: Rules, cap: Option<nat>, front: seq<StoredGame>, g: StoredGame, key: Triple, p: nat)
    requires EdgeOfPlay(before, rules, cap, front, key) && g !in front && -1 <= g.result <= 1
    requires PlaysAt(rules, cap, g, key.first, key.second, key.third, p)
    requires forall q: nat :: PlaysAt(rules, cap, g, key.first, key.second, key.third, q) ==> p <= q
    ensures EdgeOfPlay(Both(Add, before, Some(GameAgg(g, p))), rules, cap, front + [g], key)
  {
    hide AggIs, GameAgg, PlaysAt, Players, IsFirstPly;
    var players := Players(rules, cap, front, key.first, key.second, key.third);
    PlayersAre(rules, cap, front, key.first, key.second, key.third);
    PlayersGrow(rules, cap, front, g, key.first, key.second, key.third);
    assert PlaysEdge(rules, cap, g, key.first, key.second, key.third);
    FirstPlyGrows(if before.Some? then before.value.rootPly else p, rules, cap, front, g, key.first, key.second, key.third, p);
    PlyOfAgg(g, p);
    if before.Some? {
      GameAdds(before.value, players, g, p);
    } else {
      OneGame(g, p);
      assert players + {g} == {g};
    }
  }

  lemma EdgeStays(before: Option<Agg>, rules: Rules, cap: Option<nat>, front: seq<StoredGame>, g: StoredGame, key: Triple)
    requires EdgeOfPlay(before, rules, cap, front, key) && !PlaysEdge(rules, cap, g, key.first, key.second, key.third)
    ensures EdgeOfPlay(before, rules, cap, front + [g], key)
  {
    hide AggIs, PlaysEdge, Players, IsFirstPly;
    PlayersGrow(rules, cap, front, g, key.first, key.second, key.third);
    var players := Players(rules, cap, front, key.first, key.second, key.third);
    assert players + {} == players;
    if before.Some? {
      NoneMore(before.value.rootPly, rules, cap, front, g, key.first, key.second, key.third);
    }
  }

  lemma {:induction false} NaiveEdgeCounts(rules: Rules, cap: nat, games: seq<StoredGame>, key: Triple)
    requires ValidStore(games)
    ensures EdgeOfPlay(NaiveEdge(rules, cap, games, key), rules, Some(cap), games, key)
  {
    if games != [] {
      hide ValidStore, FirstPly, PlaysAt, PlaysEdge, EdgeOfPlay, GameAgg;
      var front, last := games[..|games| - 1], games[|games| - 1];
      LastIsNew(games);
      NaiveEdgeCounts(rules, cap, front, key);
      FirstIs(rules, cap, last, key);
      var p := FirstPly(rules, cap, last, key, |last.moves|);
      if p.None? {
        EdgeStays(NaiveEdge(rules, cap, front, key), rules, Some(cap), front, last, key);
      } else {
        EdgeGrows(NaiveEdge(rules, cap, front, key), rules, Some(cap), front, last, key, p.value);
      }
    } else {
      assert Players(rules, Some(cap), games, key.first, key.second, key.third) == {};
    }
  }

  lemma PlayersAre(rules: Rules, cap: Option<nat>, games: seq<StoredGame>, hash: nat, move: nat, child: nat)
    ensures
      var players := Players(rules, cap, games, hash, move, child);
      && (forall g :: g in players ==> g in games)
      && (players == {} <==> !exists g, p: nat :: g in games && PlaysAt(rules, cap, g, hash, move, child, p))
  {
    hide PlaysAt;
    var players := Players(rules, cap, games, hash, move, child);
    if g, p: nat :| g in games && PlaysAt(rules, cap, g, hash, move, child, p) {
      assert PlaysEdge(rules, cap, g, hash, move, child);
      assert g in players;
    }
    if g :| g in players {
      var p: nat :| PlaysAt(rules, cap, g, hash, move, child, p);
    }
  }

  // Rows.

  lemma VisitorsGrow(rules: Rules, front: seq<StoredGame>, g: StoredGame, hash: nat)
    ensures Visitors(rules, front + [g], hash) == Visitors(rules, front, hash) + if Visits(rules, g, hash) then {g} else {}
    ensures forall h :: h in Visitors(rules, front, hash) ==> h in front
  {
    hide HashAt;
  }

  lemma {:induction false} VisitorsCount(rules: Rules, games: seq<StoredGame>, hash: nat)
    requires ValidStore(games)
    ensures VisitCount(rules, games, hash) == |Visitors(rules, games, hash)|
  {
    if games != [] {
      hide ValidStore, ReachesBy, Visitors;
      var front, last := games[..|games| - 1], games[|games| - 1];
      LastIsNew(games);
      VisitorsCount(rules, front, hash);
      VisitorsGrow(rules, front, last, hash);
      assert Visitors(rules, front, hash) + {} == Visitors(rules, front, hash);
    } else {
      assert Visitors(rules, games, hash) == {};
    }
  }

  /** The games that stand at the position within the depth cap. */
  ghost function RootGames(rules: Rules, cap: nat, games: seq<StoredGame>, hash: nat): set<StoredGame> {
    set g | g in games && exists p: nat :: p <= cap && p <= |g.moves| && HashAt(rules, g, p) == hash
  }

  lemma RootsGrow(rules: Rules, cap: nat, front: seq<StoredGame>, g: StoredGame, hash: nat)
    ensures RootGames(rules, cap, front + [g], hash) == RootGames(rules, cap, front, hash) + if RootOf(rules, cap, g, hash) then {g} else {}
    ensures forall h :: h in RootGames(rules, cap, front, hash) ==> h in front
  {
    hide HashAt;
    assert (exists p: nat :: p <= cap && p <= |g.moves| && HashAt(rules, g, p) == hash) <==> RootOf(rules, cap, g, hash);
  }

  lemma {:induction false} RootsCount(rules: Rules, cap: nat, games: seq<StoredGame>, hash: nat)
    requires ValidStore(games)
    ensures RootCount(rules, cap, games, hash) == |RootGames(rules, cap, games, hash)|
  {
    if games != [] {
      hide ValidStore, ReachesBy, RootGames;
      var front, last := games[..|games| - 1], games[|games| - 1];
      LastIsNew(games);
      RootsCount(rules, cap, front, hash);
      RootsGrow(rules, cap, front, last, hash);
      assert RootGames(rules, cap, front, hash) + {} == RootGames(rules, cap, front, hash);
    } else {
      assert RootGames(rules, cap, games, hash) == {};
    }
  }

  lemma AverageIsMean(sum: int, count: nat)
    ensures IsMean(Average(sum, count), sum, count)
  {
  }

  lemma QuotientIs(a: real, sum: real, count: real)
    requires count != 0.0 && a * count == sum
    ensures a == sum / count
  {
  }

  lemma MeanIsUnique(a: Option<real>, b: Option<real>, sum: int, count: int)
    requires IsMean(a, sum, count) && IsMean(b, sum, count)
    ensures a == b
  {
    if count != 0 {
      QuotientIs(a.value, sum as real, count as real);
      QuotientIs(b.value, sum as real, count as real);
    }
  }

  lemma {:induction false} SumIsNatural(s: set<StoredGame>)
    requires forall g :: g in s ==> ElosOk(g)
    ensures SumOver(s, EloSum) >= 0
    decreases |s|
  {
    if s != {} {
      var g :| g in s;
      SumWithout(s, g, EloSum);
      SumIsNatural(s - {g});
    }
  }

  /** The row of an aggregate says what holds of its games. */
  lemma AggRow(key: Triple, a: Agg, players: set<StoredGame>, visitors: set<StoredGame>)
    requires AggIs(a, players) && players != {} && forall g :: g in players ==> ElosOk(g)
    ensures RowCounts(RowOf(key, a, |visitors|), players, visitors)
  {
    hide WhiteRated, BlackRated, BothRated, WithResult, SumOver, Average;
    AverageIsMean(a.whiteEloSum, a.whiteEloCount);
    AverageIsMean(a.blackEloSum, a.blackEloCount);
    RatedArePlayers(players);
    SumIsNatural(BothRated(players));
  }

  lemma RatedArePlayers(players: set<StoredGame>)
    ensures forall g :: g in BothRated(players) ==> g in players
  {
  }

  /** Only one row says so. */
  lemma RowIsUnique(a: StatRow, b: StatRow, players: set<StoredGame>, visitors: set<StoredGame>)
    requires RowCounts(a, players, visitors) && RowCounts(b, players, visitors)
    requires a.move == b.move && a.child == b.child && a.rootPly == b.rootPly
    ensures a == b
  {
    hide WhiteRated, BlackRated, BothRated, WithResult, SumOver, IsMean;
    MeanIsUnique(a.avgWhiteElo, b.avgWhiteElo, SumOver(WhiteRated(players), WhiteElo), |WhiteRated(players)|);
    MeanIsUnique(a.avgBlackElo, b.avgBlackElo, SumOver(BlackRated(players), BlackElo), |BlackRated(players)|);
    MeanIsUnique(a.eloWeightedScore, b.eloWeightedScore, SumOver(BothRated(players), Score), SumOver(BothRated(players), EloSum));
  }

  // Whole answers.

  lemma RowFromEdge(rules: Rules, cap: nat, games: seq<StoredGame>, all: seq<StoredGame>, key: Triple)
    requires ValidStore(games) && AllElosOk(games) && ValidStore(all)
    requires NaiveEdge(rules, cap, games, key).Some?
    ensures RowOfPlay(RowOf(key, NaiveEdge(rules, cap, games, key).value, VisitCount(rules, all, key.third)), rules, Some(cap), games, all, key.first)
  {
    hide NaiveEdge, VisitCount, ValidStore, Players, Visitors, RowCounts, AggIs, IsFirstPly;
    NaiveEdgeCounts(rules, cap, games, key);
    VisitorsCount(rules, all, key.third);
    PlayersAre(rules, Some(cap), games, key.first, key.second, key.third);
    var players := Players(rules, Some(cap), games, key.first, key.second, key.third);
    forall g | g in players
      ensures ElosOk(g)
    {
      var i :| 0 <= i < |games| && games[i] == g;
    }
    AggRow(key, NaiveEdge(rules, cap, games, key).value, players, Visitors(rules, all, key.third));
  }

  lemma EdgeIsPlayed(rules: Rules, cap: nat, games: seq<StoredGame>, key: Triple)
    requires ValidStore(games)
    ensures NaiveEdge(rules, cap, games, key).Some? <==>
      exists g, p: nat :: g in games && PlaysAt(rules, Some(cap), g, key.first, key.second, key.third, p)
  {
    hide NaiveEdge, ValidStore, Players, AggIs, IsFirstPly, PlaysAt;
    NaiveEdgeCounts(rules, cap, games, key);
    PlayersAre(rules, Some(cap), games, key.first, key.second, key.third);
  }

  /** The naive statistics are exactly the rows that say what holds of the games that play them. */
  lemma StatsAreMeant(rows: seq<StatRow>, rules: Rules, cap: nat, games: seq<StoredGame>, all: seq<StoredGame>, hash: nat)
    requires ValidStore(games) && AllElosOk(games) && ValidStore(all)
    ensures IsStatsOver(rows, rules, cap, games, all, hash) <==> StatsOfPlay(rows, rules, Some(cap), games, all, hash)
  {
    hide IsStatsOver, StatsOfPlay;
    if IsStatsOver(rows, rules, cap, games, all, hash) {
      NaiveIsMeant(rows, rules, cap, games, all, hash);
    }
    if StatsOfPlay(rows, rules, Some(cap), games, all, hash) {
      MeantIsNaive(rows, rules, cap, games, all, hash);
    }
  }

  lemma NaiveIsMeant(rows: seq<StatRow>, rules: Rules, cap: nat, games: seq<StoredGame>, all: seq<StoredGame>, hash: nat)
    requires ValidStore(games) && AllElosOk(games) && ValidStore(all) && IsStatsOver(rows, rules, cap, games, all, hash)
    ensures StatsOfPlay(rows, rules, Some(cap), games, all, hash)
  {
    hide NaiveEdge, VisitCount, ValidStore, AllElosOk, RowOfPlay, PlaysAt, HasRow;
    forall i, j | 0 <= i < j < |rows|
      ensures rows[i].move < rows[j].move || (rows[i].move == rows[j].move && rows[i].child < rows[j].child)
    {
      assert Less(RowKey(hash, rows[i]), RowKey(hash, rows[j]));
    }
    forall i | 0 <= i < |rows|
      ensures RowOfPlay(rows[i], rules, Some(cap), games, all, hash)
    {
      RowFromEdge(rules, cap, games, all, RowKey(hash, rows[i]));
    }
    forall g, move, child, p: nat | g in games && PlaysAt(rules, Some(cap), g, hash, move, child, p)
      ensures HasRow(rows, move, child)
    {
      EdgeIsPlayed(rules, cap, games, Triple(hash, move, child));
      KeyIsRow(rows, hash, move, child);
    }
  }

  lemma KeyIsRow(rows: seq<StatRow>, hash: nat, move: nat, child: nat)
    ensures HasRow(rows, move, child) <==> exists i :: 0 <= i < |rows| && RowKey(hash, rows[i]) == Triple(hash, move, child)
  {
    if i :| 0 <= i < |rows| && rows[i].move == move && rows[i].child == child {
      assert RowKey(hash, rows[i]) == Triple(hash, move, child);
    }
  }

  lemma MeantIsNaive(rows: seq<StatRow>, rules: Rules, cap: nat, games: seq<StoredGame>, all: seq<StoredGame>, hash: nat)
    requires ValidStore(games) && AllElosOk(games) && ValidStore(all) && StatsOfPlay(rows, rules, Some(cap), games, all, hash)
    ensures IsStatsOver(rows, rules, cap, games, all, hash)
  {
    hide NaiveEdge, VisitCount, ValidStore, AllElosOk, RowOfPlay, PlaysAt, HasRow, RowOf;
    forall i | 0 <= i < |rows|
      ensures
        var edge := NaiveEdge(rules, cap, games, RowKey(hash, rows[i]));
        edge.Some? && rows[i] == RowOf(RowKey(hash, rows[i]), edge.value, VisitCount(rules, all, rows[i].child))
    {
      RowIsNaive(rows[i], rules, cap, games, all, hash);
    }
    forall move: nat, child: nat | NaiveEdge(rules, cap, games, Triple(hash, move, child)).Some?
      ensures exists i :: 0 <= i < |rows| && RowKey(hash, rows[i]) == Triple(hash, move, child)
    {
      EdgeIsPlayed(rules, cap, games, Triple(hash, move, child));
      KeyIsRow(rows, hash, move, child);
    }
  }

  lemma RowIsNaive(r: StatRow, rules: Rules, cap: nat, games: seq<StoredGame>, all: seq<StoredGame>, hash: nat)
    requires ValidStore(games) && AllElosOk(games) && ValidStore(all) && RowOfPlay(r, rules, Some(cap), games, all, hash)
    ensures
      var edge := NaiveEdge(rules, cap, games, RowKey(hash, r));
      edge.Some? && r == RowOf(RowKey(hash, r), edge.value, VisitCount(rules, all, r.child))
  {
    hide NaiveEdge, VisitCount, ValidStore, AllElosOk, PlaysAt, RowCounts, Players, Visitors;
    var key := RowKey(hash, r);
    EdgeIsPlayed(rules, cap, games, key);
    RowFromEdge(rules, cap, games, all, key);
    var naive := RowOf(key, NaiveEdge(rules, cap, games, key).value, VisitCount(rules, all, r.child));
    assert naive.rootPly == r.rootPly;
    RowIsUnique(r, naive, Players(rules, Some(cap), games, hash, r.move, r.child), Visitors(rules, all, r.child));
  }

  /** In games of 16-bit plies nothing lies beyond a 16-bit cap. */
  lemma CapCoversAll(rows: seq<StatRow>, rules: Rules, games: seq<StoredGame>, all: seq<StoredGame>, hash: nat)
    requires ShortGames(games)
    ensures StatsOfPlay(rows, rules, Some(U16_MAX), games, all, hash) <==> StatsOfPlay(rows, rules, None, games, all, hash)
  {
    hide HashAfter, RowCounts;
    forall g, move, child, p: nat | g in games
      ensures PlaysAt(rules, Some(U16_MAX), g, hash, move, child, p) <==> PlaysAt(rules, None, g, hash, move, child, p)
    {
      var i :| 0 <= i < |games| && games[i] == g;
    }
    hide PlaysAt;
    forall i | 0 <= i < |rows|
      ensures RowOfPlay(rows[i], rules, Some(U16_MAX), games, all, hash) <==> RowOfPlay(rows[i], rules, None, games, all, hash)
    {
      assert Players(rules, Some(U16_MAX), games, hash, rows[i].move, rows[i].child) == Players(rules, None, games, hash, rows[i].move, rows[i].child);
    }
  }
}
