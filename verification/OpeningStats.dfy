/** Opening statistics: per-game edge contributions, their naive aggregate over all games, and the rows of a position. */
module OpeningStats {
  import opened Words
  import opened SortedRuns
  import opened Aggregation
  import opened Chess

  const I32_MAX: nat := 0x7FFF_FFFF

  /** edge_agg; the two Elo weights are sums of halves and kept doubled. */
  datatype Agg = Agg(rootPly: nat, frequency: nat, whiteWins: nat, draws: nat, blackWins: nat,
                     whiteEloSum: int, whiteEloCount: nat, blackEloSum: int, blackEloCount: nat,
                     weightedContrib: int, eloWeight: int, ecoMin: nat, ecoMax: nat)

  /** merge_edge_agg. */
  function Add(a: Agg, b: Agg): Agg {
    Agg(Min(a.rootPly, b.rootPly), a.frequency + b.frequency, a.whiteWins + b.whiteWins, a.draws + b.draws,
        a.blackWins + b.blackWins, a.whiteEloSum + b.whiteEloSum, a.whiteEloCount + b.whiteEloCount,
        a.blackEloSum + b.blackEloSum, a.blackEloCount + b.blackEloCount, a.weightedContrib + b.weightedContrib,
        a.eloWeight + b.eloWeight, Min(a.ecoMin, b.ecoMin), Max(a.ecoMax, b.ecoMax))
  }

  function Plus(a: nat, b: nat): nat { a + b }

  lemma AddIsLawful()
    ensures Lawful(Add) && Lawful(Plus)
  {
  }

  function EloOf(elo: Option<int>): int {
    if elo.Some? then elo.value else 0
  }

  /** What one game adds to an edge it first plays at `ply`. */
  function GameAgg(g: StoredGame, ply: nat): Agg {
    var both := g.whiteElo.Some? && g.blackElo.Some?;
    Agg(ply, 1, if g.result > 0 then 1 else 0, if g.result == 0 then 1 else 0, if g.result < 0 then 1 else 0,
        EloOf(g.whiteElo), if g.whiteElo.Some? then 1 else 0, EloOf(g.blackElo), if g.blackElo.Some? then 1 else 0,
        if both then g.result * (g.whiteElo.value + g.blackElo.value) else 0,
        if both then g.whiteElo.value + g.blackElo.value else 0, g.id, g.id)
  }

  function HashAt(rules: Rules, g: StoredGame, ply: nat): Hash
    requires ply <= |g.moves|
  {
    HashAfter(rules, g.moves[..ply])
  }

  function StartHash(rules: Rules): Hash {
    HashAfter(rules, [])
  }

  function EdgeKey(rules: Rules, g: StoredGame, ply: nat): Triple
    requires ply < |g.moves|
  {
    Triple(HashAt(rules, g, ply), g.moves[ply], HashAt(rules, g, ply + 1))
  }

  /** The plies whose edges the index records: up to the depth cap, and every ply from the start position. */
  predicate Covered(rules: Rules, cap: nat, g: StoredGame, ply: nat)
    requires ply <= |g.moves|
  {
    ply <= cap || HashAt(rules, g, ply) == StartHash(rules)
  }

  /** The first covered ply below n at which the game plays the edge. */
  function FirstPly(rules: Rules, cap: nat, g: StoredGame, key: Triple, n: nat): (p: Option<nat>)
    requires n <= |g.moves|
    ensures p.Some? ==> p.value < n && Covered(rules, cap, g, p.value) && EdgeKey(rules, g, p.value) == key
    ensures forall q: nat :: q < (if p.Some? then p.value else n) && Covered(rules, cap, g, q) ==> EdgeKey(rules, g, q) != key
  {
    if n == 0 then None
    else
      var before := FirstPly(rules, cap, g, key, n - 1);
      if before.Some? then before
      else if Covered(rules, cap, g, n - 1) && EdgeKey(rules, g, n - 1) == key then Some(n - 1) else None
  }

  function Contribution(rules: Rules, cap: nat, g: StoredGame, key: Triple): Option<Agg> {
    var p := FirstPly(rules, cap, g, key, |g.moves|);
    if p.Some? then Some(GameAgg(g, p.value)) else None
  }

  /** The naive aggregate of an edge: every game counted once, at its first covered ply. */
  function NaiveEdge(rules: Rules, cap: nat, games: seq<StoredGame>, key: Triple): Option<Agg> {
    if games == [] then None
    else Both(Add, NaiveEdge(rules, cap, games[..|games| - 1], key), Contribution(rules, cap, games[|games| - 1], key))
  }

  /** Hash counts are keyed like the other spills, with the two minor fields zero. */
  function HashKey(hash: nat): Triple {
    Triple(hash, 0, 0)
  }

  ghost predicate ReachesBy(rules: Rules, g: StoredGame, hash: nat, n: nat)
    requires n <= |g.moves|
  {
    exists p: nat :: p <= n && HashAt(rules, g, p) == hash
  }

  /** The game stands at the hash within the depth cap. */
  ghost predicate RootOf(rules: Rules, cap: nat, g: StoredGame, hash: nat) {
    ReachesBy(rules, g, hash, Min(cap, |g.moves|))
  }

  ghost predicate Visits(rules: Rules, g: StoredGame, hash: nat) {
    ReachesBy(rules, g, hash, |g.moves|)
  }

  ghost function One(b: bool): nat { if b then 1 else 0 }

  ghost function RootCount(rules: Rules, cap: nat, games: seq<StoredGame>, hash: nat): nat {
    if games == [] then 0
    else RootCount(rules, cap, games[..|games| - 1], hash) + One(RootOf(rules, cap, games[|games| - 1], hash))
  }

  /** In how many games the position occurs, at any ply. */
  ghost function VisitCount(rules: Rules, games: seq<StoredGame>, hash: nat): nat {
    if games == [] then 0
    else VisitCount(rules, games[..|games| - 1], hash) + One(Visits(rules, games[|games| - 1], hash))
  }

  function Positive(n: nat): Option<nat> {
    if n == 0 then None else Some(n)
  }

  // Rows.

  datatype StatRow = StatRow(move: nat, child: nat, rootPly: nat, frequency: nat, transposition: nat,
                             whiteWins: nat, draws: nat, blackWins: nat, avgWhiteElo: Option<real>, avgBlackElo: Option<real>,
                             ecoMin: nat, ecoMax: nat, eloWeightedScore: Option<real>)

  function Average(sum: int, count: nat): Option<real> {
    if count == 0 then None else Some(sum as real / count as real)
  }

  function RowOf(key: Triple, a: Agg, transposition: nat): StatRow {
    StatRow(key.second, key.third, a.rootPly, a.frequency, transposition, a.whiteWins, a.draws, a.blackWins,
            Average(a.whiteEloSum, a.whiteEloCount), Average(a.blackEloSum, a.blackEloCount), a.ecoMin, a.ecoMax,
            if a.eloWeight > 0 then Some(a.weightedContrib as real / a.eloWeight as real) else None)
  }

  function RowKey(hash: nat, r: StatRow): Triple {
    Triple(hash, r.move, r.child)
  }

  /** The statistics of a position over all games. */
  ghost predicate IsStats(rows: seq<StatRow>, rules: Rules, cap: nat, games: seq<StoredGame>, hash: nat) {
    IsStatsOver(rows, rules, cap, games, games, hash)
  }

  /**
   * The statistics of a position: one row per edge that a counted game plays from it, by move and child, with the edge's
   * naive aggregate over those games; transpositions are counted over `all`.
   */
  ghost predicate IsStatsOver(rows: seq<StatRow>, rules: Rules, cap: nat, games: seq<StoredGame>, all: seq<StoredGame>, hash: nat) {
    && (forall i, j :: 0 <= i < j < |rows| ==> Less(RowKey(hash, rows[i]), RowKey(hash, rows[j])))
    && (forall i :: 0 <= i < |rows| ==>
          var edge := NaiveEdge(rules, cap, games, RowKey(hash, rows[i]));
          edge.Some? && rows[i] == RowOf(RowKey(hash, rows[i]), edge.value, VisitCount(rules, all, rows[i].child)))
    && (forall move: nat, child: nat :: NaiveEdge(rules, cap, games, Triple(hash, move, child)).Some? ==>
          exists i :: 0 <= i < |rows| && RowKey(hash, rows[i]) == Triple(hash, move, child))
  }

  function RowKeys(hash: nat, rows: seq<StatRow>): (keys: seq<Triple>)
    ensures |keys| == |rows|
  {
    seq(|rows|, i requires 0 <= i < |rows| => RowKey(hash, rows[i]))
  }

  lemma StatsKeys(rows: seq<StatRow>, rules: Rules, cap: nat, games: seq<StoredGame>, hash: nat)
    requires IsStats(rows, rules, cap, games, hash)
    ensures StrictlySorted(RowKeys(hash, rows))
    ensures forall key: Triple :: key in RowKeys(hash, rows) <==> key.first == hash && NaiveEdge(rules, cap, games, key).Some?
  {
    hide NaiveEdge, VisitCount;
    forall key: Triple | key.first == hash && NaiveEdge(rules, cap, games, key).Some?
      ensures key in RowKeys(hash, rows)
    {
      assert key == Triple(hash, key.second, key.third);
      var i :| 0 <= i < |rows| && RowKey(hash, rows[i]) == Triple(hash, key.second, key.third);
      assert RowKeys(hash, rows)[i] == key;
    }
    forall key: Triple | key in RowKeys(hash, rows)
      ensures key.first == hash && NaiveEdge(rules, cap, games, key).Some?
    {
      var i :| 0 <= i < |rows| && RowKeys(hash, rows)[i] == key;
    }
  }

  /** The statistics are determined, rows and order: two paths that both return them return the same. */
  lemma StatsAreUnique(a: seq<StatRow>, b: seq<StatRow>, rules: Rules, cap: nat, games: seq<StoredGame>, hash: nat)
    requires IsStats(a, rules, cap, games, hash) && IsStats(b, rules, cap, games, hash)
    ensures a == b
  {
    hide NaiveEdge, VisitCount, RowOf;
    StatsKeys(a, rules, cap, games, hash);
    StatsKeys(b, rules, cap, games, hash);
    var s, t := RowKeys(hash, a), RowKeys(hash, b);
    assert Elements(s) == Elements(t);
    StrictlySortedIsUnique(s, t);
    forall i | 0 <= i < |a|
      ensures a[i] == b[i]
    {
      assert s[i] == t[i];
    }
  }

  // The depth cap.

  /** Every occurrence of the position lies within the cap, or the position is the start position. */
  ghost predicate Shallow(rules: Rules, cap: nat, games: seq<StoredGame>, hash: nat) {
    hash == StartHash(rules)
    || forall i: nat, p: nat :: i < |games| && p <= |games[i].moves| && HashAt(rules, games[i], p) == hash ==> p <= cap
  }

  lemma {:induction false} SameFirstPly(rules: Rules, cap: nat, deeper: nat, g: StoredGame, key: Triple, n: nat)
    requires n <= |g.moves| && cap <= deeper
    requires forall p: nat :: p < n && HashAt(rules, g, p) == key.first ==> Covered(rules, cap, g, p)
    ensures FirstPly(rules, cap, g, key, n) == FirstPly(rules, deeper, g, key, n)
  {
    if n > 0 {
      SameFirstPly(rules, cap, deeper, g, key, n - 1);
    }
  }

  /** For a shallow position the capped aggregate is the uncapped one. */
  lemma {:induction false} CapIsHarmless(rules: Rules, cap: nat, deeper: nat, games: seq<StoredGame>, key: Triple)
    requires cap <= deeper && Shallow(rules, cap, games, key.first)
    ensures NaiveEdge(rules, cap, games, key) == NaiveEdge(rules, deeper, games, key)
  {
    hide FirstPly, After, HashAfter;
    if games != [] {
      var front, last := games[..|games| - 1], games[|games| - 1];
      assert forall i: nat :: i < |front| ==> front[i] == games[i];
      CapIsHarmless(rules, cap, deeper, front, key);
      SameFirstPly(rules, cap, deeper, last, key, |last.moves|);
    }
  }

  lemma CappedStats(rows: seq<StatRow>, rules: Rules, cap: nat, deeper: nat, games: seq<StoredGame>, hash: nat)
    requires IsStats(rows, rules, cap, games, hash) && cap <= deeper && Shallow(rules, cap, games, hash)
    ensures IsStats(rows, rules, deeper, games, hash)
  {
    hide NaiveEdge, VisitCount, RowOf, Shallow;
    forall key: Triple | key.first == hash
      ensures NaiveEdge(rules, cap, games, key) == NaiveEdge(rules, deeper, games, key)
    {
      CapIsHarmless(rules, cap, deeper, games, key);
    }
  }

  // Bounds every aggregate obeys, so that no 32- or 64-bit counter overflows and no reader check fails.

  /** Elos are non-negative 32-bit numbers. */
  predicate ElosOk(g: StoredGame) {
    && (g.whiteElo.Some? ==> 0 <= g.whiteElo.value <= I32_MAX)
    && (g.blackElo.Some? ==> 0 <= g.blackElo.value <= I32_MAX)
  }

  /** Games short enough for 16-bit plies. */
  predicate ShortGames(games: seq<StoredGame>) {
    forall i :: 0 <= i < |games| ==> |games[i].moves| <= U16_MAX + 1
  }

  /** Encoded moves are 16-bit codes. */
  predicate MovesFit(games: seq<StoredGame>) {
    forall i, p :: 0 <= i < |games| && 0 <= p < |games[i].moves| ==> games[i].moves[p] <= U16_MAX
  }

  predicate AllElosOk(games: seq<StoredGame>) {
    forall i :: 0 <= i < |games| ==> ElosOk(games[i])
  }

  predicate AggOk(a: Agg) {
    && a.frequency > 0 && a.whiteWins + a.draws + a.blackWins == a.frequency
    && a.whiteEloCount <= a.frequency && a.blackEloCount <= a.frequency
    && 0 <= a.whiteEloSum <= I32_MAX * a.frequency && 0 <= a.blackEloSum <= I32_MAX * a.frequency
    && 0 <= a.eloWeight && 0 < a.ecoMin <= a.ecoMax <= U32_MAX
  }

  lemma GameAggOk(g: StoredGame, ply: nat)
    requires ElosOk(g) && 0 < g.id <= U32_MAX
    ensures AggOk(GameAgg(g, ply)) && GameAgg(g, ply).frequency == 1
  {
  }

  lemma AddOk(a: Agg, b: Agg)
    requires AggOk(a) && AggOk(b)
    ensures AggOk(Add(a, b))
  {
  }

  /** An aggregate counts each game at most once, only games that visit both ends, at covered plies only. */
  lemma {:induction false} NaiveEdgeOk(rules: Rules, cap: nat, games: seq<StoredGame>, key: Triple)
    requires ValidStore(games) && AllElosOk(games) && NaiveEdge(rules, cap, games, key).Some?
    ensures
      var a := NaiveEdge(rules, cap, games, key).value;
      && AggOk(a)
      && a.frequency <= VisitCount(rules, games, key.third)
      && a.frequency <= RootCount(rules, cap, games, key.first)
      && (a.rootPly <= cap || key.first == StartHash(rules))
  {
    hide FirstPly, After, HashAfter, AggOk, GameAgg, ReachesBy;
    var front, last := games[..|games| - 1], games[|games| - 1];
    EdgeFrequency(rules, cap, games, key);
    if NaiveEdge(rules, cap, front, key).Some? {
      NaiveEdgeOk(rules, cap, front, key);
    }
    if Contribution(rules, cap, last, key).Some? {
      var p := FirstPly(rules, cap, last, key, |last.moves|).value;
      GameAggOk(last, p);
      PlyOfAgg(last, p);
      FirstPlyCovered(rules, cap, last, key);
    }
    if NaiveEdge(rules, cap, front, key).Some? && Contribution(rules, cap, last, key).Some? {
      AddOk(NaiveEdge(rules, cap, front, key).value, Contribution(rules, cap, last, key).value);
    }
  }

  // Exactness of the two weights, which the source sums as doubles of halves.

  const I16_MAX: nat := 0x7FFF
  // 2^53
  const EXACT_HALVES: int := 0x20_0000_0000_0000

  /** Elos that the postings index takes as well. */
  predicate SmallElos(games: seq<StoredGame>) {
    forall i :: 0 <= i < |games| ==>
      && -1 <= games[i].result <= 1
      && (games[i].whiteElo.Some? ==> 0 <= games[i].whiteElo.value <= I16_MAX)
      && (games[i].blackElo.Some? ==> 0 <= games[i].blackElo.value <= I16_MAX)
  }

  predicate WeightsBounded(a: Agg) {
    -a.eloWeight <= a.weightedContrib <= a.eloWeight <= 2 * I16_MAX * a.frequency
  }

  lemma {:induction false} WeightsAreBounded(rules: Rules, cap: nat, games: seq<StoredGame>, key: Triple)
    requires SmallElos(games) && NaiveEdge(rules, cap, games, key).Some?
    ensures WeightsBounded(NaiveEdge(rules, cap, games, key).value)
  {
    hide FirstPly, After, HashAfter;
    var front, last := games[..|games| - 1], games[|games| - 1];
    if NaiveEdge(rules, cap, front, key).Some? {
      WeightsAreBounded(rules, cap, front, key);
    }
    if Contribution(rules, cap, last, key).Some? {
      GameWeights(last, FirstPly(rules, cap, last, key, |last.moves|).value);
    }
  }

  lemma GameWeights(g: StoredGame, ply: nat)
    requires SmallElos([g])
    ensures WeightsBounded(GameAgg(g, ply))
  {
    assert [g][0] == g;
  }

  /** With 16-bit Elos the sums over any games stay below 2^53 halves, where doubles are exact and their addition is associative. */
  lemma WeightsAreExact(rules: Rules, cap: nat, games: seq<StoredGame>, key: Triple)
    requires ValidStore(games) && AllElosOk(games) && SmallElos(games) && NaiveEdge(rules, cap, games, key).Some?
    ensures
      var a := NaiveEdge(rules, cap, games, key).value;
      -EXACT_HALVES < a.weightedContrib < EXACT_HALVES && 0 <= a.eloWeight < EXACT_HALVES
  {
    hide NaiveEdge, VisitCount, RootCount, SmallElos, AllElosOk, ValidStore;
    WeightsAreBounded(rules, cap, games, key);
    NaiveEdgeOk(rules, cap, games, key);
    CountsAreBounded(rules, cap, games, key.third);
    StoreIsBounded(games);
  }

  lemma PlyOfAgg(g: StoredGame, ply: nat)
    ensures GameAgg(g, ply).rootPly == ply && GameAgg(g, ply).frequency == 1
  {
  }

  lemma FirstPlyCovered(rules: Rules, cap: nat, g: StoredGame, key: Triple)
    requires FirstPly(rules, cap, g, key, |g.moves|).Some?
    ensures
      var p := FirstPly(rules, cap, g, key, |g.moves|).value;
      && (p <= cap || key.first == StartHash(rules))
      && RootOf(rules, cap, g, key.first) && Visits(rules, g, key.third) && Visits(rules, g, key.first)
  {
    var p := FirstPly(rules, cap, g, key, |g.moves|).value;
    assert HashAt(rules, g, p) == key.first && HashAt(rules, g, p + 1) == key.third;
    assert g.moves[..0] == [];
    assert HashAt(rules, g, 0) == StartHash(rules);
    if p <= cap {
      assert p <= Min(cap, |g.moves|);
    } else {
      assert 0 <= Min(cap, |g.moves|);
    }
  }

  /** The frequency alone, by induction over the games. */
  lemma {:induction false} EdgeFrequency(rules: Rules, cap: nat, games: seq<StoredGame>, key: Triple)
    ensures
      var edge := NaiveEdge(rules, cap, games, key);
      var n := if edge.Some? then edge.value.frequency else 0;
      n <= VisitCount(rules, games, key.third) && n <= RootCount(rules, cap, games, key.first)
  {
    hide FirstPly, After, HashAfter, ReachesBy, GameAgg;
    if games != [] {
      var front, last := games[..|games| - 1], games[|games| - 1];
      EdgeFrequency(rules, cap, front, key);
      if Contribution(rules, cap, last, key).Some? {
        FirstPlyCovered(rules, cap, last, key);
        PlyOfAgg(last, FirstPly(rules, cap, last, key, |last.moves|).value);
      }
    }
  }

  lemma {:induction false} CountsAreBounded(rules: Rules, cap: nat, games: seq<StoredGame>, hash: nat)
    ensures VisitCount(rules, games, hash) <= |games| && RootCount(rules, cap, games, hash) <= |games|
    ensures hash == StartHash(rules) ==> RootCount(rules, cap, games, hash) == |games|
  {
    hide ReachesBy;
    if games != [] {
      CountsAreBounded(rules, cap, games[..|games| - 1], hash);
      StartIsRoot(rules, cap, games[|games| - 1]);
    }
  }

  lemma StartIsRoot(rules: Rules, cap: nat, g: StoredGame)
    ensures RootOf(rules, cap, g, StartHash(rules))
  {
    assert g.moves[..0] == [];
    assert HashAt(rules, g, 0) == StartHash(rules);
  }

  lemma {:induction false} IdsBoundGames(games: seq<StoredGame>, n: nat)
    requires ValidStore(games) && n < |games|
    ensures n < games[n].id
  {
    if n > 0 {
      IdsBoundGames(games, n - 1);
    }
  }

  /** Row ids are 32-bit, so a store holds fewer than 2^32 games. */
  lemma StoreIsBounded(games: seq<StoredGame>)
    requires ValidStore(games)
    ensures |games| <= U32_MAX
  {
    if games != [] {
      IdsBoundGames(games, |games| - 1);
    }
  }
}
