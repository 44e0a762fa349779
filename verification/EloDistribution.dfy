/** Results by average rating: for every move from a position, contiguous rating buckets that count each game once. */
module EloDistribution {
  import opened Words
  import opened SortedRuns
  import opened Chess
  import opened PostingsFile
  import opened PostingsLookup
  import opened PostingsAnswers
  import opened PositionPostings
  import opened PostingsBuild
  import opened OpeningStats
  import opened OpeningMeaning
  import opened PostingsReplay
  import opened OpeningQueries
  import opened GameSearch
  import PostingBlock

  datatype Counts = Counts(whiteWins: nat, draws: nat, blackWins: nat, games: nat)

  const NO_GAMES: Counts := Counts(0, 0, 0, 0)

  datatype EloRow = EloRow(move: nat, floor: int, counts: Counts)

  type Key = (nat, int)

  /** Integer division as in C++: towards zero. */
  function Truncated(a: int, b: int): int
    requires b > 0
  {
    if a >= 0 then a / b else -(-a / b)
  }

  function BucketOf(white: int, black: int, width: int): int
    requires width > 0
  {
    Steps(Truncated(Truncated(white + black, 2), width), width)
  }

  function Steps(n: int, width: int): int {
    n * width
  }

  ghost predicate IsMultiple(floor: int, width: int) {
    exists q: int :: floor == Steps(q, width)
  }

  /** Both range ends are multiples of the width, whatever the signs. */
  lemma BucketIsMultiple(white: int, black: int, width: int)
    requires width > 0
    ensures IsMultiple(BucketOf(white, black, width), width)
  {
    hide Steps;
  }

  // Which games count.

  predicate HasElos(g: StoredGame) {
    g.whiteElo.Some? && g.blackElo.Some?
  }

  /** No allowed set means every game. */
  predicate IsAllowed(allowed: set<nat>, id: nat) {
    allowed == {} || id in allowed
  }

  ghost predicate Plays(rules: Rules, g: StoredGame, hash: nat, move: nat) {
    exists ply :: 0 <= ply < |g.moves| && HashAt(rules, g, ply) == hash && g.moves[ply] == move
  }

  /** The allowed games. */
  ghost function Selected(games: seq<StoredGame>, allowed: set<nat>): set<StoredGame> {
    set g | g in games && IsAllowed(allowed, g.id)
  }

  /** The counted games with both ratings that play the move from the position. */
  ghost function Players(rules: Rules, counted: set<StoredGame>, hash: nat, move: nat): set<StoredGame> {
    set g | g in counted && HasElos(g) && Plays(rules, g, hash, move)
  }

  function BucketOfGame(g: StoredGame, width: int): int
    requires width > 0
  {
    if HasElos(g) then BucketOf(g.whiteElo.value, g.blackElo.value, width) else 0
  }

  ghost function InBucket(s: set<StoredGame>, floor: int, width: int): set<StoredGame>
    requires width > 0
  {
    set g | g in s && BucketOfGame(g, width) == floor
  }

  ghost function CountsOf(s: set<StoredGame>): Counts {
    Counts(|WithResult(s, 1)|, |WithResult(s, 0)|, |WithResult(s, -1)|, |s|)
  }

  /** Wins, draws and losses partition the games. */
  lemma OutcomesPartition(s: set<StoredGame>)
    requires forall g :: g in s ==> -1 <= g.result <= 1
    ensures CountsOf(s).whiteWins + CountsOf(s).draws + CountsOf(s).blackWins == CountsOf(s).games
  {
    assert s == WithResult(s, 1) + WithResult(s, 0) + WithResult(s, -1);
  }

  // The first loop: buckets, each game once per move.

  function AddResult(c: Counts, result: int): Counts {
    var more := if result > 0 then c.(whiteWins := c.whiteWins + 1) else if result < 0 then c.(blackWins := c.blackWins + 1) else c.(draws := c.draws + 1);
    more.(games := c.games + 1)
  }

  function CountsAt(buckets: map<Key, Counts>, move: nat, floor: int): Counts {
    if (move, floor) in buckets then buckets[(move, floor)] else NO_GAMES
  }

  lemma CountsAdd(s: set<StoredGame>, g: StoredGame)
    requires g !in s && -1 <= g.result <= 1
    ensures CountsOf(s + {g}) == AddResult(CountsOf(s), g.result)
  {
    ResultAdds(s, g, 1);
    ResultAdds(s, g, 0);
    ResultAdds(s, g, -1);
  }

  ghost function SeenIn(games: seq<StoredGame>, seen: set<(nat, nat)>, move: nat): set<StoredGame> {
    set g | g in games && (g.id, move) in seen
  }

  ghost predicate CellIs(buckets: map<Key, Counts>, move: nat, floor: int, s: set<StoredGame>) {
    ((move, floor) in buckets <==> s != {}) && CountsAt(buckets, move, floor) == CountsOf(s)
  }

  ghost predicate Tallied(buckets: map<Key, Counts>, games: seq<StoredGame>, seen: set<(nat, nat)>, width: int)
    requires width > 0
  {
    forall move: nat, floor: int :: CellIs(buckets, move, floor, InBucket(SeenIn(games, seen, move), floor, width))
  }

  lemma NothingTallied(games: seq<StoredGame>, width: int)
    requires width > 0
    ensures Tallied(map[], games, {}, width)
  {
    forall move: nat, floor: int
      ensures CellIs(map[], move, floor, InBucket(SeenIn(games, {}, move), floor, width))
    {
      assert InBucket(SeenIn(games, {}, move), floor, width) == {};
      assert WithResult({}, 1) == {} && WithResult({}, 0) == {} && WithResult({}, -1) == {};
    }
  }

  lemma SeenGrows(games: seq<StoredGame>, seen: set<(nat, nat)>, g: StoredGame, move: nat, other: nat)
    requires ValidStore(games) && g in games
    ensures SeenIn(games, seen + {(g.id, move)}, other) == SeenIn(games, seen, other) + if other == move then {g} else {}
  {
    forall h | h in games
      ensures (h.id, other) in seen + {(g.id, move)} <==> (h.id, other) in seen || (other == move && h == g)
    {
      if h.id == g.id {
        SameId(games, h, g);
      }
    }
  }

  lemma BucketGrows(s: set<StoredGame>, g: StoredGame, floor: int, width: int)
    requires width > 0
    ensures InBucket(s + {g}, floor, width) == InBucket(s, floor, width) + if BucketOfGame(g, width) == floor then {g} else {}
  {
  }

  lemma TallyOne(buckets: map<Key, Counts>, games: seq<StoredGame>, seen: set<(nat, nat)>, width: int, g: StoredGame, move: nat)
    requires ValidStore(games) && width > 0 && g in games && (g.id, move) !in seen && Tallied(buckets, games, seen, width)
    requires -1 <= g.result <= 1
    ensures
      var floor := BucketOfGame(g, width);
      Tallied(buckets[(move, floor) := AddResult(CountsAt(buckets, move, floor), g.result)], games, seen + {(g.id, move)}, width)
  {
    hide ValidStore, CountsOf, InBucket, BucketOfGame, AddResult;
    var floor := BucketOfGame(g, width);
    var after := buckets[(move, floor) := AddResult(CountsAt(buckets, move, floor), g.result)];
    forall m: nat, f: int
      ensures CellIs(after, m, f, InBucket(SeenIn(games, seen + {(g.id, move)}, m), f, width))
    {
      var before := InBucket(SeenIn(games, seen, m), f, width);
      assert CellIs(buckets, m, f, before);
      SeenGrows(games, seen, g, move, m);
      if m == move {
        BucketGrows(SeenIn(games, seen, m), g, f, width);
        if f == floor {
          assert g !in before by { NotYet(games, seen, m, f, width, g); }
          CountsAdd(before, g);
        } else {
          assert before + {} == before;
        }
      } else {
        assert SeenIn(games, seen, m) + {} == SeenIn(games, seen, m);
      }
    }
  }

  lemma NotYet(games: seq<StoredGame>, seen: set<(nat, nat)>, move: nat, floor: int, width: int, g: StoredGame)
    requires width > 0 && (g.id, move) !in seen
    ensures g !in InBucket(SeenIn(games, seen, move), floor, width)
  {
  }

  /** The move a match counts for: it is allowed, rated and continued. */
  function MoveOf(m: Match, allowed: set<nat>, contexts: map<nat, seq<nat>>): Option<nat> {
    if IsAllowed(allowed, m.id) && m.whiteElo.Some? && m.blackElo.Some? && m.id in contexts && m.ply < |contexts[m.id]|
    then Some(contexts[m.id][m.ply]) else None
  }

  ghost predicate SeenOk(seen: set<(nat, nat)>, matches: seq<Match>, k: nat, allowed: set<nat>, contexts: map<nat, seq<nat>>) {
    && k <= |matches|
    && (forall p :: p in seen ==> exists i :: 0 <= i < k && matches[i].id == p.0 && MoveOf(matches[i], allowed, contexts) == Some(p.1))
    && (forall i :: 0 <= i < k ==>
          var move := MoveOf(matches[i], allowed, contexts); move.Some? ==> (matches[i].id, move.value) in seen)
  }

  lemma SeenStep(seen: set<(nat, nat)>, matches: seq<Match>, k: nat, allowed: set<nat>, contexts: map<nat, seq<nat>>)
    requires SeenOk(seen, matches, k, allowed, contexts) && k < |matches|
    ensures
      var move := MoveOf(matches[k], allowed, contexts);
      SeenOk(if move.Some? then seen + {(matches[k].id, move.value)} else seen, matches, k + 1, allowed, contexts)
  {
    hide MoveOf;
    var move := MoveOf(matches[k], allowed, contexts);
    var after := if move.Some? then seen + {(matches[k].id, move.value)} else seen;
    forall p | p in after
      ensures exists i :: 0 <= i < k + 1 && matches[i].id == p.0 && MoveOf(matches[i], allowed, contexts) == Some(p.1)
    {
      if p in seen {
        var i :| 0 <= i < k && matches[i].id == p.0 && MoveOf(matches[i], allowed, contexts) == Some(p.1);
        assert i < k + 1;
      } else {
        assert k < k + 1 && matches[k].id == p.0;
      }
    }
  }

  method CollectBuckets(matches: seq<Match>, allowed: set<nat>, contexts: map<nat, seq<nat>>, width: int,
                        ghost rules: Rules, ghost games: seq<StoredGame>, ghost hash: nat)
    returns (buckets: map<Key, Counts>, ghost seen: set<(nat, nat)>)
    requires width > 0 && ValidStore(games) && AllOccurrences(matches, rules, games, hash)
    ensures Tallied(buckets, games, seen, width) && SeenOk(seen, matches, |matches|, allowed, contexts)
    ensures Multiples(buckets, width)
  {
    hide ValidStore, Tallied, AllOccurrences, SeenOk, BucketOf, HashAfter, AddResult, Multiples;
    var done: set<(nat, nat)> := {};
    buckets := map[];
    NothingTallied(games, width);
    NothingSeen(matches, allowed, contexts, width);
    for k := 0 to |matches|
      invariant Tallied(buckets, games, done, width) && SeenOk(done, matches, k, allowed, contexts)
      invariant Multiples(buckets, width)
    {
      var m := matches[k];
      SeenStep(done, matches, k, allowed, contexts);
      if !IsAllowed(allowed, m.id) || m.whiteElo.None? || m.blackElo.None? {
        continue;
      }
      if m.id !in contexts || m.ply >= |contexts[m.id]| {
        continue;
      }
      var move := contexts[m.id][m.ply];
      if (m.id, move) in done {
        assert done + {(m.id, move)} == done;
        continue;
      }
      ghost var g := MatchedGame(matches, k, rules, games, hash);
      TallyOne(buckets, games, done, width, g, move);
      done := done + {(m.id, move)};
      var floor := BucketOf(m.whiteElo.value, m.blackElo.value, width);
      BucketIsMultiple(m.whiteElo.value, m.blackElo.value, width);
      OneMoreMultiple(buckets, width, (move, floor), AddResult(CountsAt(buckets, move, floor), m.result));
      buckets := buckets[(move, floor) := AddResult(CountsAt(buckets, move, floor), m.result)];
    }
    seen := done;
  }

  ghost predicate Multiples(buckets: map<Key, Counts>, width: int) {
    forall key :: key in buckets ==> IsMultiple(key.1, width)
  }

  lemma OneMoreMultiple(buckets: map<Key, Counts>, width: int, key: Key, c: Counts)
    requires width > 0 && Multiples(buckets, width) && IsMultiple(key.1, width)
    ensures Multiples(buckets[key := c], width)
  {
  }

  lemma NothingSeen(matches: seq<Match>, allowed: set<nat>, contexts: map<nat, seq<nat>>, width: int)
    requires width > 0
    ensures SeenOk({}, matches, 0, allowed, contexts) && Multiples(map[], width)
  {
  }

  lemma MatchedGame(matches: seq<Match>, k: nat, rules: Rules, games: seq<StoredGame>, hash: nat) returns (g: StoredGame)
    requires ValidStore(games) && AllOccurrences(matches, rules, games, hash) && k < |matches|
    ensures g in games && OccursIn(matches[k], rules, g, hash) && -1 <= g.result <= 1
  {
    hide HashAfter;
    assert OccursInSome(matches[k], rules, games, hash);
    g :| g in games && OccursIn(matches[k], rules, g, hash);
    var i :| 0 <= i < |games| && games[i] == g;
  }

  /** What was seen is exactly who plays the move. */
  lemma SeenArePlayers(seen: set<(nat, nat)>, matches: seq<Match>, allowed: set<nat>, contexts: map<nat, seq<nat>>, rules: Rules,
                       games: seq<StoredGame>, hash: nat, move: nat)
    requires ValidStore(games) && AllOccurrences(matches, rules, games, hash) && SeenOk(seen, matches, |matches|, allowed, contexts)
    requires ContextsFor(contexts, games, matches, allowed)
    ensures SeenIn(games, seen, move) == Players(rules, Selected(games, allowed), hash, move)
  {
    hide HashAfter, ValidStore, AllOccurrences, SeenOk, ContextsFor;
    forall g | g in games
      ensures (g.id, move) in seen <==> (IsAllowed(allowed, g.id) && HasElos(g) && Plays(rules, g, hash, move))
    {
      if (g.id, move) in seen {
        SeenPlays(seen, matches, allowed, contexts, rules, games, hash, move, g);
      }
      if (IsAllowed(allowed, g.id) && HasElos(g) && Plays(rules, g, hash, move)) {
        PlayerSeen(seen, matches, allowed, contexts, rules, games, hash, move, g);
      }
    }
  }

  /** The contexts hold the moves of the allowed games that occur. */
  ghost predicate ContextsFor(contexts: map<nat, seq<nat>>, games: seq<StoredGame>, matches: seq<Match>, allowed: set<nat>) {
    && (forall g :: g in games && g.id in contexts ==> contexts[g.id] == g.moves)
    && (forall i :: 0 <= i < |matches| && IsAllowed(allowed, matches[i].id) ==> matches[i].id in contexts)
  }

  lemma SeenPlays(seen: set<(nat, nat)>, matches: seq<Match>, allowed: set<nat>, contexts: map<nat, seq<nat>>, rules: Rules,
                  games: seq<StoredGame>, hash: nat, move: nat, g: StoredGame)
    requires ValidStore(games) && AllOccurrences(matches, rules, games, hash) && SeenOk(seen, matches, |matches|, allowed, contexts)
    requires ContextsFor(contexts, games, matches, allowed) && g in games && (g.id, move) in seen
    ensures (IsAllowed(allowed, g.id) && HasElos(g) && Plays(rules, g, hash, move))
  {
    hide HashAfter, ValidStore, AllOccurrences;
    var i :| 0 <= i < |matches| && matches[i].id == g.id && MoveOf(matches[i], allowed, contexts) == Some(move);
    var h := MatchedGame(matches, i, rules, games, hash);
    SameId(games, g, h);
    assert 0 <= matches[i].ply < |g.moves| && HashAt(rules, g, matches[i].ply) == hash && g.moves[matches[i].ply] == move;
  }

  lemma PlayerSeen(seen: set<(nat, nat)>, matches: seq<Match>, allowed: set<nat>, contexts: map<nat, seq<nat>>, rules: Rules,
                   games: seq<StoredGame>, hash: nat, move: nat, g: StoredGame)
    requires ValidStore(games) && AllOccurrences(matches, rules, games, hash) && SeenOk(seen, matches, |matches|, allowed, contexts)
    requires ContextsFor(contexts, games, matches, allowed) && g in games && (IsAllowed(allowed, g.id) && HasElos(g) && Plays(rules, g, hash, move))
    ensures (g.id, move) in seen
  {
    hide HashAfter, ValidStore;
    var ply :| 0 <= ply < |g.moves| && HashAt(rules, g, ply) == hash && g.moves[ply] == move;
    assert Listed(matches, g.id, ply);
    var k :| 0 <= k < |matches| && matches[k].id == g.id && matches[k].ply == ply;
    var h := MatchedGame(matches, k, rules, games, hash);
    SameId(games, g, h);
    assert MoveOf(matches[k], allowed, contexts) == Some(move);
  }

  // The second and third loops: ranges and zero fill.

  predicate RangeOf(range: (int, int), buckets: map<Key, Counts>, move: nat) {
    (move, range.0) in buckets && (move, range.1) in buckets && range.0 <= range.1
  }

  predicate RangesOk(ranges: map<nat, (int, int)>, buckets: map<Key, Counts>, done: set<Key>) {
    && (forall move :: move in ranges ==> RangeOf(ranges[move], buckets, move))
    && (forall key :: key in done ==> key.0 in ranges && ranges[key.0].0 <= key.1 <= ranges[key.0].1)
  }

  method CollectRanges(buckets: map<Key, Counts>) returns (ranges: map<nat, (int, int)>)
    ensures RangesOk(ranges, buckets, buckets.Keys)
  {
    hide RangesOk;
    ranges := map[];
    var rest := buckets.Keys;
    NoRanges(buckets);
    while rest != {}
      invariant rest <= buckets.Keys && RangesOk(ranges, buckets, buckets.Keys - rest)
      decreases rest
    {
      var key :| key in rest;
      RangeStep(ranges, buckets, buckets.Keys - rest, key);
      assert buckets.Keys - (rest - {key}) == buckets.Keys - rest + {key};
      var range := if key.0 in ranges then ranges[key.0] else (key.1, key.1);
      ranges := ranges[key.0 := (Min(range.0, key.1), Max(range.1, key.1))];
      rest := rest - {key};
    }
    assert buckets.Keys - rest == buckets.Keys;
  }

  lemma NoRanges(buckets: map<Key, Counts>)
    ensures RangesOk(map[], buckets, buckets.Keys - buckets.Keys)
  {
  }

  lemma RangeStep(ranges: map<nat, (int, int)>, buckets: map<Key, Counts>, done: set<Key>, key: Key)
    requires RangesOk(ranges, buckets, done) && key in buckets
    ensures
      var range := if key.0 in ranges then ranges[key.0] else (key.1, key.1);
      RangesOk(ranges[key.0 := (Min(range.0, key.1), Max(range.1, key.1))], buckets, done + {key})
  {
    assert key == (key.0, key.1);
  }

  lemma StepsAdd(a: int, b: int, width: int)
    ensures Steps(a + b, width) == Steps(a, width) + Steps(b, width)
    ensures Steps(1, width) == width && Steps(0, width) == 0
  {
  }

  lemma {:induction false} StepsGrow(n: nat, width: int)
    requires width > 0
    ensures Steps(n, width) >= n
  {
    if n > 0 {
      StepsGrow(n - 1, width);
      StepsAdd(n - 1, 1, width);
    }
  }

  lemma RangeSteps(lo: int, hi: int, width: int) returns (n: nat)
    requires width > 0 && lo <= hi && IsMultiple(lo, width) && IsMultiple(hi, width)
    ensures lo + Steps(n, width) == hi
  {
    hide Steps;
    var a: int :| lo == Steps(a, width);
    var b: int :| hi == Steps(b, width);
    StepsAdd(a, b - a, width);
    if b < a {
      StepsAdd(b, a - b, width);
      StepsGrow(a - b, width);
    }
    n := b - a;
  }

  /** The rows of one move: from the first to the last bucket, one width apart. */
  ghost predicate IsFilled(rows: seq<EloRow>, buckets: map<Key, Counts>, move: nat, lo: int, width: int) {
    forall i :: 0 <= i < |rows| ==> rows[i] == EloRow(move, lo + Steps(i, width), CountsAt(buckets, move, lo + Steps(i, width)))
  }

  /** The zero-fill loop ends because both ends are multiples of the width. */
  method ZeroFill(buckets: map<Key, Counts>, move: nat, lo: int, hi: int, width: int) returns (rows: seq<EloRow>)
    requires width > 0 && lo <= hi && IsMultiple(lo, width) && IsMultiple(hi, width)
    ensures rows != [] && IsFilled(rows, buckets, move, lo, width) && lo + Steps(|rows| - 1, width) == hi
  {
    hide Steps;
    ghost var n := RangeSteps(lo, hi, width);
    rows := [];
    var bucket := lo;
    StepsAdd(0, 0, width);
    while true
      invariant |rows| <= n && bucket == lo + Steps(|rows|, width) && IsFilled(rows, buckets, move, lo, width)
      decreases n - |rows|
    {
      rows := rows + [EloRow(move, bucket, CountsAt(buckets, move, bucket))];
      StepsAdd(|rows| - 1, n - (|rows| - 1), width);
      StepsGrow(n - (|rows| - 1), width);
      StepsAdd(|rows| - 1, 1, width);
      if bucket == hi {
        break;
      }
      bucket := bucket + width;
    }
  }

  /** Rows ascend by move and, within a move, by exactly one width. */
  ghost predicate Contiguous(rows: seq<EloRow>, width: int) {
    forall i, j :: 0 <= i < j < |rows| ==>
      rows[i].move < rows[j].move || (rows[i].move == rows[j].move && rows[j].floor == rows[i].floor + Steps(j - i, width))
  }

  predicate Shown(rows: seq<EloRow>, key: Key) {
    exists i :: 0 <= i < |rows| && rows[i].move == key.0 && rows[i].floor == key.1
  }

  /** A row between two buckets of its move, with the bucket's counts or none. */
  predicate RowOk(r: EloRow, buckets: map<Key, Counts>) {
    r.counts == CountsAt(buckets, r.move, r.floor)
  }

  ghost predicate Bounded(r: EloRow, buckets: map<Key, Counts>) {
    exists lo, hi :: (r.move, lo) in buckets && (r.move, hi) in buckets && lo <= r.floor <= hi
  }

  ghost predicate IsTable(rows: seq<EloRow>, buckets: map<Key, Counts>, moves: set<nat>, width: int) {
    && Contiguous(rows, width)
    && (forall i :: 0 <= i < |rows| ==> rows[i].move in moves && RowOk(rows[i], buckets) && Bounded(rows[i], buckets))
    && (forall key :: key in buckets && key.0 in moves ==> Shown(rows, key))
  }

  lemma BlockShows(block: seq<EloRow>, buckets: map<Key, Counts>, move: nat, lo: int, hi: int, width: int, floor: int)
    requires width > 0 && IsFilled(block, buckets, move, lo, width) && block != [] && lo + Steps(|block| - 1, width) == hi
    requires lo <= floor <= hi && IsMultiple(floor, width) && IsMultiple(lo, width)
    ensures Shown(block, (move, floor))
  {
    hide Steps;
    var n := RangeSteps(lo, floor, width);
    if n >= |block| {
      StepsAdd(|block| - 1, n - (|block| - 1), width);
      StepsGrow(n - (|block| - 1), width);
    }
    assert block[n].floor == floor;
  }

  lemma BlockRow(block: seq<EloRow>, buckets: map<Key, Counts>, move: nat, lo: int, hi: int, width: int, i: nat)
    requires width > 0 && IsFilled(block, buckets, move, lo, width) && i < |block| && lo + Steps(|block| - 1, width) == hi
    requires RangeOf((lo, hi), buckets, move)
    ensures block[i].move == move && RowOk(block[i], buckets) && Bounded(block[i], buckets)
  {
    hide Steps, CountsAt;
    var r := block[i];
    assert r.move == move && r.floor == lo + Steps(i, width);
    StepsGrow(i, width);
    StepsAdd(i, |block| - 1 - i, width);
    StepsGrow(|block| - 1 - i, width);
    assert (r.move, lo) in buckets && (r.move, hi) in buckets && lo <= r.floor <= hi;
  }

  lemma BlockContiguous(block: seq<EloRow>, buckets: map<Key, Counts>, move: nat, lo: int, width: int)
    requires IsFilled(block, buckets, move, lo, width)
    ensures Contiguous(block, width)
  {
    hide Steps, CountsAt;
    forall i, j | 0 <= i < j < |block|
      ensures block[i].move == block[j].move && block[j].floor == block[i].floor + Steps(j - i, width)
    {
      StepsAdd(i, j - i, width);
    }
  }

  /** What a move's range and its filled block come to. */
  lemma BlockFits(block: seq<EloRow>, buckets: map<Key, Counts>, ranges: map<nat, (int, int)>, move: nat, width: int)
    requires width > 0 && Multiples(buckets, width) && RangesOk(ranges, buckets, buckets.Keys) && move in ranges
    requires block != [] && IsFilled(block, buckets, move, ranges[move].0, width) && ranges[move].0 + Steps(|block| - 1, width) == ranges[move].1
    ensures Contiguous(block, width)
    ensures forall i :: 0 <= i < |block| ==> block[i].move == move && RowOk(block[i], buckets) && Bounded(block[i], buckets)
    ensures forall floor :: (move, floor) in buckets ==> Shown(block, (move, floor))
  {
    hide Contiguous, RowOk, Bounded, IsFilled, Steps, IsMultiple, Shown;
    var (lo, hi) := ranges[move];
    BlockContiguous(block, buckets, move, lo, width);
    forall i | 0 <= i < |block|
      ensures block[i].move == move && RowOk(block[i], buckets) && Bounded(block[i], buckets)
    {
      BlockRow(block, buckets, move, lo, hi, width, i);
    }
    forall floor | (move, floor) in buckets
      ensures Shown(block, (move, floor))
    {
      assert (move, floor) in buckets.Keys;
      BlockShows(block, buckets, move, lo, hi, width, floor);
    }
  }

  lemma RangeKnown(buckets: map<Key, Counts>, ranges: map<nat, (int, int)>, move: nat, width: int)
    requires width > 0 && Multiples(buckets, width) && RangesOk(ranges, buckets, buckets.Keys) && move in ranges
    ensures ranges[move].0 <= ranges[move].1 && IsMultiple(ranges[move].0, width) && IsMultiple(ranges[move].1, width)
  {
    hide IsMultiple;
    assert RangeOf(ranges[move], buckets, move);
  }

  lemma TableGrows(rows: seq<EloRow>, buckets: map<Key, Counts>, moves: set<nat>, width: int, block: seq<EloRow>, move: nat)
    requires IsTable(rows, buckets, moves, width) && (forall m :: m in moves ==> m < move) && Contiguous(block, width)
    requires forall i :: 0 <= i < |block| ==> block[i].move == move && RowOk(block[i], buckets) && Bounded(block[i], buckets)
    requires forall floor :: (move, floor) in buckets ==> Shown(block, (move, floor))
    ensures IsTable(rows + block, buckets, moves + {move}, width)
  {
    hide RowOk, Bounded, Steps;
    var all := rows + block;
    forall i, j | 0 <= i < j < |all|
      ensures all[i].move < all[j].move || (all[i].move == all[j].move && all[j].floor == all[i].floor + Steps(j - i, width))
    {
      if i >= |rows| {
        assert all[i] == block[i - |rows|] && all[j] == block[j - |rows|] && (j - |rows|) - (i - |rows|) == j - i;
      }
    }
    forall key | key in buckets && key.0 in moves + {move}
      ensures Shown(all, key)
    {
      if key.0 in moves {
        var i :| 0 <= i < |rows| && rows[i].move == key.0 && rows[i].floor == key.1;
        assert all[i] == rows[i];
      } else {
        var floor := key.1;
        assert key == (move, floor);
        assert (move, floor) in buckets;
        var i :| 0 <= i < |block| && block[i].move == key.0 && block[i].floor == key.1;
        assert all[|rows| + i] == block[i];
      }
    }
  }

  predicate Before(done: set<nat>, rest: set<nat>) {
    forall a, b :: a in done && b in rest ==> a < b
  }

  lemma LeastIsIn(rest: set<nat>)
    requires exists id: nat :: IsLeastId(rest, id)
    ensures exists id: nat :: id in rest && IsLeastId(rest, id)
  {
    var id: nat :| IsLeastId(rest, id);
    assert id in rest;
  }

  lemma LeastIsNext(done: set<nat>, rest: set<nat>, move: nat)
    requires Before(done, rest) && IsLeastId(rest, move)
    ensures (forall m :: m in done ==> m < move) && Before(done + {move}, rest - {move})
  {
  }

  method EmitTable(buckets: map<Key, Counts>, width: int) returns (rows: seq<EloRow>, ghost moves: set<nat>)
    requires width > 0 && Multiples(buckets, width)
    ensures IsTable(rows, buckets, moves, width) && forall key :: key in buckets ==> key.0 in moves
  {
    hide IsTable, Contiguous, RowOk, Bounded, IsFilled, Steps, RangesOk, Multiples, IsMultiple, Shown, Before, IsLeastId;
    var ranges := CollectRanges(buckets);
    rows := [];
    var rest, done := ranges.Keys, {};
    EmptyTable(buckets, width, rest);
    while rest != {}
      invariant rest + done == ranges.Keys && rest !! done
      invariant IsTable(rows, buckets, done, width)
      invariant Before(done, rest)
      decreases |rest|
    {
      LeastIdExists(rest);
      LeastIsIn(rest);
      var move: nat :| move in rest && IsLeastId(rest, move);
      LeastIsNext(done, rest, move);
      RangeKnown(buckets, ranges, move, width);
      var block := ZeroFill(buckets, move, ranges[move].0, ranges[move].1, width);
      BlockFits(block, buckets, ranges, move, width);
      TableGrows(rows, buckets, done, width, block, move);
      rows := rows + block;
      rest, done := rest - {move}, done + {move};
    }
    moves := done;
    EveryKeyRanged(ranges, buckets);
  }

  lemma EveryKeyRanged(ranges: map<nat, (int, int)>, buckets: map<Key, Counts>)
    requires RangesOk(ranges, buckets, buckets.Keys)
    ensures forall key :: key in buckets ==> key.0 in ranges
  {
    assert forall key :: key in buckets ==> key in buckets.Keys;
  }

  lemma EmptyTable(buckets: map<Key, Counts>, width: int, rest: set<nat>)
    ensures IsTable([], buckets, {}, width) && Before({}, rest)
  {
  }

  // What the rows mean.

  /** The ratings' sum, halved towards zero, lies in the bucket of that floor. */
  predicate RatingsIn(g: StoredGame, floor: int, width: int) {
    && g.whiteElo.Some? && g.blackElo.Some?
    && var sum := g.whiteElo.value + g.blackElo.value;
      if floor > 0 then 2 * floor <= sum < 2 * (floor + width)
      else if floor < 0 then 2 * (floor - width) < sum <= 2 * floor
      else -2 * width < sum < 2 * width
  }

  ghost function RatedIn(s: set<StoredGame>, floor: int, width: int): set<StoredGame> {
    set g | g in s && RatingsIn(g, floor, width)
  }

  ghost predicate CellCounts(r: EloRow, s: set<StoredGame>) {
    && r.counts.games == |s|
    && r.counts.whiteWins == |WithResult(s, 1)| && r.counts.draws == |WithResult(s, 0)| && r.counts.blackWins == |WithResult(s, -1)|
  }

  ghost predicate BetweenRated(floor: int, players: set<StoredGame>, width: int) {
    exists a, b, lo, hi ::
      && a in players && b in players && RatingsIn(a, lo, width) && RatingsIn(b, hi, width)
      && IsMultiple(lo, width) && IsMultiple(hi, width) && lo <= floor <= hi
  }

  /**
   * Contiguous rows at multiples of the width, each with the exact counts of the players whose ratings lie in it, every player in
   * some row of every move it plays, and no row outside the range its move was played in.
   */
  ghost predicate IsDistribution(rows: seq<EloRow>, rules: Rules, counted: set<StoredGame>, hash: nat, width: int) {
    && Contiguous(rows, width)
    && (forall i :: 0 <= i < |rows| ==>
          var players := Players(rules, counted, hash, rows[i].move);
          && IsMultiple(rows[i].floor, width) && CellCounts(rows[i], RatedIn(players, rows[i].floor, width))
          && BetweenRated(rows[i].floor, players, width))
    && (forall move: nat, g :: g in Players(rules, counted, hash, move) ==> HasRowFor(rows, move, g, width))
  }

  predicate HasRowFor(rows: seq<EloRow>, move: nat, g: StoredGame, width: int) {
    exists i :: 0 <= i < |rows| && rows[i].move == move && RatingsIn(g, rows[i].floor, width)
  }

  /** Dividing towards zero: the quotient's interval. */
  lemma TruncatedIs(a: int, b: int)
    requires b > 0
    ensures var q := Truncated(a, b); if a >= 0 then q >= 0 && b * q <= a < b * q + b else q <= 0 && b * q - b < a <= b * q
  {
  }

  lemma StepsOrder(q: int, k: int, width: int)
    requires width > 0
    ensures q < k ==> Steps(q, width) + width <= Steps(k, width)
    ensures q > 0 <==> Steps(q, width) > 0
    ensures q < 0 <==> Steps(q, width) < 0
  {
    hide Steps;
    StepsAdd(q, k - q, width);
    StepsAdd(q, -q, width);
    if q < k {
      StepsAdd(1, k - q - 1, width);
      StepsGrow(k - q - 1, width);
    }
    if q > 0 {
      StepsGrow(q, width);
    }
    if q < 0 {
      StepsGrow(-q, width);
    }
  }

  /** At a multiple of the width, a game's bucket is the one its ratings lie in. */
  lemma BucketIsRange(g: StoredGame, floor: int, width: int)
    requires width > 0 && HasElos(g) && IsMultiple(floor, width)
    ensures BucketOfGame(g, width) == floor <==> RatingsIn(g, floor, width)
  {
    hide Steps, Truncated;
    var sum := g.whiteElo.value + g.blackElo.value;
    var q :| floor == Steps(q, width);
    var half := Truncated(sum, 2);
    var k := Truncated(half, width);
    TruncatedIs(sum, 2);
    TruncatedIs(half, width);
    assert Steps(k, width) == width * k by { StepsIs(k, width); }
    StepsOrder(q, k, width);
    StepsOrder(k, q, width);
  }

  lemma StepsIs(n: int, width: int)
    ensures Steps(n, width) == width * n
  {
  }

  lemma RatedIsBucket(s: set<StoredGame>, floor: int, width: int)
    requires width > 0 && IsMultiple(floor, width) && forall g :: g in s ==> HasElos(g)
    ensures InBucket(s, floor, width) == RatedIn(s, floor, width)
  {
    hide BucketOfGame, RatingsIn, IsMultiple;
    forall g | g in s
      ensures BucketOfGame(g, width) == floor <==> RatingsIn(g, floor, width)
    {
      BucketIsRange(g, floor, width);
    }
  }

  lemma RangeIsBetween(floor: int, players: set<StoredGame>, width: int)
    requires width > 0 && forall g :: g in players ==> HasElos(g)
    ensures BetweenRated(floor, players, width)
      <==> exists a, b :: a in players && b in players && BucketOfGame(a, width) <= floor <= BucketOfGame(b, width)
  {
    hide BucketOfGame, RatingsIn, IsMultiple;
    if a, b, lo, hi :| a in players && b in players && RatingsIn(a, lo, width) && RatingsIn(b, hi, width)
                       && IsMultiple(lo, width) && IsMultiple(hi, width) && lo <= floor <= hi {
      BucketIsRange(a, lo, width);
      BucketIsRange(b, hi, width);
    }
    if a, b :| a in players && b in players && BucketOfGame(a, width) <= floor <= BucketOfGame(b, width) {
      OwnBucket(a, width);
      OwnBucket(b, width);
    }
  }

  lemma OwnBucket(g: StoredGame, width: int)
    requires width > 0 && HasElos(g)
    ensures IsMultiple(BucketOfGame(g, width), width) && RatingsIn(g, BucketOfGame(g, width), width)
  {
    hide RatingsIn, BucketOf;
    BucketIsMultiple(g.whiteElo.value, g.blackElo.value, width);
    BucketIsRange(g, BucketOfGame(g, width), width);
  }

  lemma PlayersAreRated(rules: Rules, counted: set<StoredGame>, hash: nat, move: nat)
    ensures forall g :: g in Players(rules, counted, hash, move) ==> HasElos(g)
  {
    hide Plays;
  }

  /** Rows counted by bucket are rows counted by the ratings they stand for. */
  lemma BucketedIsDistribution(rows: seq<EloRow>, rules: Rules, counted: set<StoredGame>, hash: nat, width: int)
    requires width > 0
    ensures IsBucketed(rows, rules, counted, hash, width) <==> IsDistribution(rows, rules, counted, hash, width)
  {
    hide Contiguous, Players, InBucket, BucketOfGame, RatingsIn, RatedIn, IsMultiple, BetweenRated, BetweenPlayed, Shown, HasRowFor, HasElos, WithResult;
    forall i | 0 <= i < |rows| && IsMultiple(rows[i].floor, width)
      ensures
        var players := Players(rules, counted, hash, rows[i].move);
        InBucket(players, rows[i].floor, width) == RatedIn(players, rows[i].floor, width)
    {
      PlayersAreRated(rules, counted, hash, rows[i].move);
      RatedIsBucket(Players(rules, counted, hash, rows[i].move), rows[i].floor, width);
    }
    forall i | 0 <= i < |rows|
      ensures BetweenPlayed(rows[i], rules, counted, hash, width)
        <==> BetweenRated(rows[i].floor, Players(rules, counted, hash, rows[i].move), width)
    {
      PlayersAreRated(rules, counted, hash, rows[i].move);
      BetweenIs(rows[i], rules, counted, hash, width);
      RangeIsBetween(rows[i].floor, Players(rules, counted, hash, rows[i].move), width);
    }
    if forall i :: 0 <= i < |rows| ==> IsMultiple(rows[i].floor, width) {
      forall move: nat, g | g in Players(rules, counted, hash, move)
        ensures Shown(rows, (move, BucketOfGame(g, width))) <==> HasRowFor(rows, move, g, width)
      {
        PlayersAreRated(rules, counted, hash, move);
        ShownIsRow(rows, move, g, width);
      }
    }
  }

  lemma BetweenIs(r: EloRow, rules: Rules, counted: set<StoredGame>, hash: nat, width: int)
    requires width > 0
    ensures
      var players := Players(rules, counted, hash, r.move);
      BetweenPlayed(r, rules, counted, hash, width)
      <==> exists a, b :: a in players && b in players && BucketOfGame(a, width) <= r.floor <= BucketOfGame(b, width)
  {
    hide Players, BucketOfGame;
  }

  lemma ShownIsRow(rows: seq<EloRow>, move: nat, g: StoredGame, width: int)
    requires width > 0 && HasElos(g) && forall i :: 0 <= i < |rows| ==> IsMultiple(rows[i].floor, width)
    ensures Shown(rows, (move, BucketOfGame(g, width))) <==> HasRowFor(rows, move, g, width)
  {
    hide BucketOfGame, RatingsIn, IsMultiple, HasElos;
    forall i | 0 <= i < |rows|
      ensures BucketOfGame(g, width) == rows[i].floor <==> RatingsIn(g, rows[i].floor, width)
    {
      BucketIsRange(g, rows[i].floor, width);
    }
  }

  /** The same, by the bucket the source computes for a game. */
  ghost predicate IsBucketed(rows: seq<EloRow>, rules: Rules, counted: set<StoredGame>, hash: nat, width: int)
    requires width > 0
  {
    && Contiguous(rows, width)
    && (forall i :: 0 <= i < |rows| ==>
          && IsMultiple(rows[i].floor, width)
          && rows[i].counts == CountsOf(InBucket(Players(rules, counted, hash, rows[i].move), rows[i].floor, width))
          && BetweenPlayed(rows[i], rules, counted, hash, width))
    && (forall move: nat, g :: g in Players(rules, counted, hash, move) ==> Shown(rows, (move, BucketOfGame(g, width))))
  }

  ghost predicate BetweenPlayed(r: EloRow, rules: Rules, counted: set<StoredGame>, hash: nat, width: int)
    requires width > 0
  {
    var players := Players(rules, counted, hash, r.move);
    exists a, b :: a in players && b in players && BucketOfGame(a, width) <= r.floor <= BucketOfGame(b, width)
  }

  lemma CellPlayed(buckets: map<Key, Counts>, seen: set<(nat, nat)>, games: seq<StoredGame>, width: int, move: nat, floor: int)
    returns (g: StoredGame)
    requires width > 0 && Tallied(buckets, games, seen, width) && (move, floor) in buckets
    ensures g in SeenIn(games, seen, move) && BucketOfGame(g, width) == floor
  {
    hide SeenIn, BucketOfGame, CountsOf;
    assert CellIs(buckets, move, floor, InBucket(SeenIn(games, seen, move), floor, width));
    g :| g in InBucket(SeenIn(games, seen, move), floor, width);
  }

  lemma RowMeans(r: EloRow, buckets: map<Key, Counts>, seen: set<(nat, nat)>, rules: Rules, games: seq<StoredGame>, counted: set<StoredGame>,
                 hash: nat, width: int)
    requires width > 0 && RowOk(r, buckets) && Bounded(r, buckets) && Tallied(buckets, games, seen, width)
    requires SeenIn(games, seen, r.move) == Players(rules, counted, hash, r.move)
    ensures r.counts == CountsOf(InBucket(Players(rules, counted, hash, r.move), r.floor, width))
    ensures BetweenPlayed(r, rules, counted, hash, width)
  {
    hide SeenIn, Players, CountsOf, BucketOfGame, InBucket;
    assert CellIs(buckets, r.move, r.floor, InBucket(SeenIn(games, seen, r.move), r.floor, width));
    var lo, hi :| (r.move, lo) in buckets && (r.move, hi) in buckets && lo <= r.floor <= hi;
    var a := CellPlayed(buckets, seen, games, width, r.move, lo);
    var b := CellPlayed(buckets, seen, games, width, r.move, hi);
  }

  lemma PlayerHasBucket(buckets: map<Key, Counts>, seen: set<(nat, nat)>, games: seq<StoredGame>, width: int, move: nat, g: StoredGame)
    requires width > 0 && Tallied(buckets, games, seen, width) && g in SeenIn(games, seen, move)
    ensures (move, BucketOfGame(g, width)) in buckets
  {
    hide SeenIn, BucketOfGame, CountsOf;
    var floor := BucketOfGame(g, width);
    assert CellIs(buckets, move, floor, InBucket(SeenIn(games, seen, move), floor, width));
    assert g in InBucket(SeenIn(games, seen, move), floor, width);
  }

  lemma TableIsBucketed(rows: seq<EloRow>, buckets: map<Key, Counts>, moves: set<nat>, seen: set<(nat, nat)>, rules: Rules,
                            games: seq<StoredGame>, counted: set<StoredGame>, hash: nat, width: int)
    requires width > 0 && IsTable(rows, buckets, moves, width) && (forall key :: key in buckets ==> key.0 in moves)
    requires Tallied(buckets, games, seen, width) && Multiples(buckets, width)
    requires forall move :: SeenIn(games, seen, move) == Players(rules, counted, hash, move)
    ensures IsBucketed(rows, rules, counted, hash, width)
  {
    hide Contiguous, SeenIn, Players, CountsOf, BucketOfGame, Tallied, RowOk, Bounded, BetweenPlayed, InBucket, Shown, Multiples, IsMultiple;
    forall i | 0 <= i < |rows|
      ensures IsMultiple(rows[i].floor, width)
      ensures rows[i].counts == CountsOf(InBucket(Players(rules, counted, hash, rows[i].move), rows[i].floor, width))
      ensures BetweenPlayed(rows[i], rules, counted, hash, width)
    {
      RowMeans(rows[i], buckets, seen, rules, games, counted, hash, width);
      RowOnStep(rows, buckets, moves, width, i);
    }
    forall move: nat, g | g in Players(rules, counted, hash, move)
      ensures Shown(rows, (move, BucketOfGame(g, width)))
    {
      PlayerHasBucket(buckets, seen, games, width, move, g);
    }
  }

  /** A row is a whole number of widths from a bucket that was played. */
  lemma RowOnStep(rows: seq<EloRow>, buckets: map<Key, Counts>, moves: set<nat>, width: int, i: nat)
    requires width > 0 && IsTable(rows, buckets, moves, width) && Multiples(buckets, width) && i < |rows|
    ensures IsMultiple(rows[i].floor, width)
  {
    hide Steps, RowOk, Contiguous, IsMultiple, Multiples, Shown;
    assert Bounded(rows[i], buckets);
    var lo, hi :| (rows[i].move, lo) in buckets && (rows[i].move, hi) in buckets && lo <= rows[i].floor <= hi;
    var key := (rows[i].move, lo);
    assert IsMultiple(lo, width) by { KeyIsMultiple(buckets, width, key); }
    assert Shown(rows, key);
    var j := RowShown(rows, key);
    SameMove(rows, width, i, j);
  }

  lemma KeyIsMultiple(buckets: map<Key, Counts>, width: int, key: Key)
    requires Multiples(buckets, width) && key in buckets
    ensures IsMultiple(key.1, width)
  {
  }

  lemma RowShown(rows: seq<EloRow>, key: Key) returns (j: nat)
    requires Shown(rows, key)
    ensures j < |rows| && rows[j].move == key.0 && rows[j].floor == key.1
  {
    j :| 0 <= j < |rows| && rows[j].move == key.0 && rows[j].floor == key.1;
  }

  lemma SameMove(rows: seq<EloRow>, width: int, i: nat, j: nat)
    requires Contiguous(rows, width) && i < |rows| && j < |rows| && rows[i].move == rows[j].move && IsMultiple(rows[j].floor, width)
    ensures IsMultiple(rows[i].floor, width)
  {
    hide Steps;
    var q: int :| rows[j].floor == Steps(q, width);
    StepsAdd(q, i - j, width);
    StepsAdd(i - j, j - i, width);
  }

  function GamesFor(rows: seq<EloRow>, move: nat): nat {
    if rows == [] then 0
    else GamesFor(rows[..|rows| - 1], move) + if rows[|rows| - 1].move == move then rows[|rows| - 1].counts.games else 0
  }

  ghost function Covered(s: set<StoredGame>, rows: seq<EloRow>, move: nat, width: int): set<StoredGame>
    requires width > 0
  {
    set g | g in s && Shown(rows, (move, BucketOfGame(g, width)))
  }

  lemma ShownGrows(rows: seq<EloRow>, last: EloRow, key: Key)
    ensures Shown(rows + [last], key) <==> Shown(rows, key) || (last.move == key.0 && last.floor == key.1)
  {
    var all := rows + [last];
    if Shown(rows, key) {
      var i :| 0 <= i < |rows| && rows[i].move == key.0 && rows[i].floor == key.1;
      assert all[i] == rows[i];
    }
    if last.move == key.0 && last.floor == key.1 {
      assert all[|rows|] == last;
    }
    if Shown(all, key) {
      var i :| 0 <= i < |all| && all[i].move == key.0 && all[i].floor == key.1;
      assert i < |rows| ==> rows[i] == all[i];
    }
  }

  lemma {:induction false} SumCovers(s: set<StoredGame>, rows: seq<EloRow>, move: nat, width: int)
    requires width > 0 && Contiguous(rows, width)
    requires forall i :: 0 <= i < |rows| && rows[i].move == move ==> rows[i].counts.games == |InBucket(s, rows[i].floor, width)|
    ensures GamesFor(rows, move) == |Covered(s, rows, move, width)|
    decreases |rows|
  {
    if rows == [] {
      assert Covered(s, rows, move, width) == {};
    } else {
      hide BucketOfGame, Contiguous, InBucket, Covered, Shown;
      var front, last := rows[..|rows| - 1], rows[|rows| - 1];
      assert rows == front + [last];
      FrontContiguous(rows, width);
      SumCovers(s, front, move, width);
      CoveredGrows(s, front, last, move, width);
      if last.move == move {
        NotShownTwice(rows, width);
        CoveredApart(s, front, last.floor, move, width);
      }
    }
  }

  lemma FrontContiguous(rows: seq<EloRow>, width: int)
    requires rows != [] && Contiguous(rows, width)
    ensures Contiguous(rows[..|rows| - 1], width)
  {
    hide Steps;
  }

  lemma CoveredGrows(s: set<StoredGame>, front: seq<EloRow>, last: EloRow, move: nat, width: int)
    requires width > 0
    ensures Covered(s, front + [last], move, width)
      == Covered(s, front, move, width) + if last.move == move then InBucket(s, last.floor, width) else {}
  {
    hide BucketOfGame, Shown;
    forall g
      ensures Shown(front + [last], (move, BucketOfGame(g, width))) <==>
        Shown(front, (move, BucketOfGame(g, width))) || (last.move == move && last.floor == BucketOfGame(g, width))
    {
      ShownGrows(front, last, (move, BucketOfGame(g, width)));
    }
  }

  lemma CoveredApart(s: set<StoredGame>, front: seq<EloRow>, floor: int, move: nat, width: int)
    requires width > 0 && !Shown(front, (move, floor))
    ensures Covered(s, front, move, width) !! InBucket(s, floor, width)
  {
    hide BucketOfGame, Shown;
  }

  lemma NotShownTwice(rows: seq<EloRow>, width: int)
    requires width > 0 && rows != [] && Contiguous(rows, width)
    ensures !Shown(rows[..|rows| - 1], (rows[|rows| - 1].move, rows[|rows| - 1].floor))
  {
    hide Steps;
    var n := |rows| - 1;
    forall i | 0 <= i < n
      ensures rows[i].move != rows[n].move || rows[i].floor != rows[n].floor
    {
      StepsGrow(n - i, width);
    }
  }

  /** Over the rows of a move the counts sum to the games that play it, and each row's outcomes sum to its count. */
  lemma CountsSumToPlayers(rows: seq<EloRow>, rules: Rules, counted: set<StoredGame>, hash: nat, width: int, move: nat)
    requires width > 0 && IsDistribution(rows, rules, counted, hash, width) && forall g :: g in counted ==> -1 <= g.result <= 1
    ensures GamesFor(rows, move) == |Players(rules, counted, hash, move)|
    ensures forall i :: 0 <= i < |rows| ==>
      rows[i].counts.whiteWins + rows[i].counts.draws + rows[i].counts.blackWins == rows[i].counts.games
  {
    hide Contiguous, Players, BucketOfGame, InBucket, BetweenPlayed, Shown, IsDistribution;
    BucketedIsDistribution(rows, rules, counted, hash, width);
    var players := Players(rules, counted, hash, move);
    assert forall i :: 0 <= i < |rows| && rows[i].move == move ==> rows[i].counts.games == |InBucket(players, rows[i].floor, width)|;
    SumCovers(players, rows, move, width);
    assert Covered(players, rows, move, width) == players;
    forall i | 0 <= i < |rows|
      ensures rows[i].counts.whiteWins + rows[i].counts.draws + rows[i].counts.blackWins == rows[i].counts.games
    {
      PlayersHaveResults(rules, counted, hash, rows[i].move, rows[i].floor, width);
      OutcomesPartition(InBucket(Players(rules, counted, hash, rows[i].move), rows[i].floor, width));
    }
  }

  lemma PlayersHaveResults(rules: Rules, counted: set<StoredGame>, hash: nat, move: nat, floor: int, width: int)
    requires width > 0 && forall g :: g in counted ==> -1 <= g.result <= 1
    ensures forall g :: g in InBucket(Players(rules, counted, hash, move), floor, width) ==> -1 <= g.result <= 1
  {
    hide Plays, BucketOfGame;
  }

  lemma ContextsCover(contexts: map<nat, seq<nat>>, games: seq<StoredGame>, matches: seq<Match>, allowed: set<nat>, ids: set<nat>,
                      rules: Rules, hash: nat)
    requires ValidStore(games) && ContextsOk(contexts, PostingsReplay.Allowed(games, ids)) && AllOccurrences(matches, rules, games, hash)
    requires forall i :: 0 <= i < |matches| && IsAllowed(allowed, matches[i].id) ==> matches[i].id in ids
    ensures ContextsFor(contexts, games, matches, allowed)
  {
    hide ValidStore, HashAfter;
    AllowedAre(games, ids);
    var part := PostingsReplay.Allowed(games, ids);
    forall g | g in games && g.id in contexts
      ensures contexts[g.id] == g.moves
    {
      var h :| h in part && h.id == g.id;
      SameId(games, g, h);
    }
    forall i | 0 <= i < |matches| && IsAllowed(allowed, matches[i].id)
      ensures matches[i].id in contexts
    {
      var g := MatchedGame(matches, i, rules, games, hash);
      assert g in part;
    }
  }

  /** query_elo_distribution over the postings: an empty allowed set stands for all games. */
  method Distribution(rules: Rules, games: seq<StoredGame>, postings: PositionPostings, hash: nat, allowed: set<nat>, width: int)
    returns (r: Result<seq<EloRow>>)
    requires ValidStore(games) && UpToDate(postings, rules, games)
    ensures width <= 0 ==> r == Err(InvalidArgument)
    ensures width > 0 ==> r.Ok? && IsDistribution(r.value, rules, (set g | g in games && (allowed == {} || g.id in allowed)), hash, width)
  {
    hide Acceptable, IndexesStore, ValidStore, IndexOf, OccurrencesAnswer, AllOccurrences, ContextsOk, ContextsFor, Tallied, SeenOk, IsTable;
    hide Multiples, IsBucketed, IsDistribution, PostingsReplay.Allowed, SeenIn, Players;
    ghost var counted := Selected(games, allowed);
    assert counted == set g | g in games && (allowed == {} || g.id in allowed);
    if width <= 0 {
      return Err(InvalidArgument);
    }
    ghost var all := OccurrencesAreAll(postings.artifact.value, rules, games, hash);
    var answer := postings.Occurrences(hash, 0, 0);
    var matches: seq<Match>;
    match answer {
      case Err(e) => return Err(e);
      case Ok(found) => matches := found;
    }
    var ids := set m | m in matches && IsAllowed(allowed, m.id) :: m.id;
    var contexts := GetContexts(games, ids);
    ContextsCover(contexts, games, matches, allowed, ids, rules, hash);
    var buckets, rows;
    ghost var seen, moves;
    buckets, seen := CollectBuckets(matches, allowed, contexts, width, rules, games, hash);
    rows, moves := EmitTable(buckets, width);
    forall move
      ensures SeenIn(games, seen, move) == Players(rules, counted, hash, move)
    {
      SeenArePlayers(seen, matches, allowed, contexts, rules, games, hash, move);
    }
    TableIsBucketed(rows, buckets, moves, seen, rules, games, counted, hash, width);
    BucketedIsDistribution(rows, rules, counted, hash, width);
    return Ok(rows);
  }

  // With a search filter.

  lemma PlayerVisits(rules: Rules, games: seq<StoredGame>, g: StoredGame, hash: nat, move: nat)
    requires ValidStore(games) && g in games && Plays(rules, g, hash, move)
    ensures g.id in VisitIds(rules, games, hash)
  {
    hide HashAfter, ValidStore, VisitIds;
    var ply :| 0 <= ply < |g.moves| && HashAt(rules, g, ply) == hash && g.moves[ply] == move;
    assert Visits(rules, g, hash);
    VisitIdsAre(rules, games, hash);
    assert VisitorIn(rules, games, hash, g.id);
  }

  /** Only who plays matters. */
  lemma SamePlayers(rows: seq<EloRow>, rules: Rules, a: set<StoredGame>, b: set<StoredGame>, hash: nat, width: int)
    requires IsDistribution(rows, rules, a, hash, width)
    requires forall move :: Players(rules, a, hash, move) == Players(rules, b, hash, move)
    ensures IsDistribution(rows, rules, b, hash, width)
  {
    hide Contiguous, Players, RatedIn, CellCounts, BetweenRated, HasRowFor, IsMultiple;
    forall i | 0 <= i < |rows|
      ensures
        var players := Players(rules, b, hash, rows[i].move);
        CellCounts(rows[i], RatedIn(players, rows[i].floor, width)) && BetweenRated(rows[i].floor, players, width)
    {
      assert Players(rules, a, hash, rows[i].move) == Players(rules, b, hash, rows[i].move);
    }
  }

  lemma NobodyPlays(rules: Rules, counted: set<StoredGame>, hash: nat, width: int)
    requires forall move :: Players(rules, counted, hash, move) == {}
    ensures IsDistribution([], rules, counted, hash, width)
  {
    hide Players;
  }

  lemma FilteredPlayers(rules: Rules, games: seq<StoredGame>, hash: nat, matches: StoredGame -> bool, filtered: seq<nat>, move: nat)
    requires ValidStore(games)
    requires filtered == IdsOf(Matching(PostingsReplay.Allowed(games, Elements(VisitIds(rules, games, hash))), matches))
    ensures
      var players := Players(rules, (set g | g in games && matches(g)), hash, move);
      players == if filtered == [] then {}
                 else Players(rules, (set g | g in games && (Elements(filtered) == {} || g.id in Elements(filtered))), hash, move)
  {
    hide ValidStore, VisitIds, Plays, Matching, PostingsReplay.Allowed, HasElos;
    var ids := Elements(VisitIds(rules, games, hash));
    var part := Matching(PostingsReplay.Allowed(games, ids), matches);
    AllowedAre(games, ids);
    MatchingAre(PostingsReplay.Allowed(games, ids), matches);
    forall g | g in games && Plays(rules, g, hash, move)
      ensures g.id in filtered <==> matches(g)
    {
      PlayerVisits(rules, games, g, hash, move);
      assert g.id in ids;
      ListedIds(games, part, g);
    }
    assert filtered != [] ==> filtered[0] in Elements(filtered);
  }

  lemma ListedIds(games: seq<StoredGame>, part: seq<StoredGame>, g: StoredGame)
    requires ValidStore(games) && g in games && forall h :: h in part ==> h in games
    ensures g.id in IdsOf(part) <==> g in part
  {
    hide ValidStore;
    if g.id in IdsOf(part) {
      var i :| 0 <= i < |part| && IdsOf(part)[i] == g.id;
      SameId(games, g, part[i]);
    }
    if g in part {
      var i :| 0 <= i < |part| && part[i] == g;
      assert IdsOf(part)[i] == g.id;
    }
  }

  /** Without an allowed set and without conditions every game counts. */
  lemma EverybodyMatches(games: seq<StoredGame>, allowed: set<nat>, matches: StoredGame -> bool)
    requires allowed == {} && forall g :: matches(g)
    ensures (set g | g in games && (allowed == {} || g.id in allowed)) == set g | g in games && matches(g)
  {
  }

  /** query_elo_distribution: the distribution over the games that match the filter. */
  method QueryDistribution(rules: Rules, games: seq<StoredGame>, postings: PositionPostings, postingsValid: bool, hash: nat, f: Filter, width: int)
    returns (r: Result<seq<EloRow>>)
    requires ValidStore(games) && FilterOk(f)
    requires postingsValid ==> UpToDate(postings, rules, games) && postings.indexedGameCount == |games|
    ensures width <= 0 ==> r == Err(InvalidArgument)
    ensures width > 0 && !postingsValid ==> r == Err(IoFailure)
    ensures width > 0 && postingsValid ==> r.Ok? && IsDistribution(r.value, rules, (set g | g in games && f.matches(g)), hash, width)
  {
    hide Acceptable, IndexesStore, ValidStore, IndexOf, GameIdsAnswer, PostingBlock.Page, VisitIds, Players, IsDistribution, Matching;
    hide PostingsReplay.Allowed, IdsOf;
    if width <= 0 {
      return Err(InvalidArgument);
    }
    if !postingsValid || |games| != postings.indexedGameCount {
      return Err(IoFailure);
    }
    ghost var matching := set g | g in games && f.matches(g);
    if !f.hasMetadata {
      r := Distribution(rules, games, postings, hash, {}, width);
      EverybodyMatches(games, {}, f.matches);
      return;
    }
    GameIdsMean(postings.artifact.value, rules, games, hash);
    WholePage(VisitIds(rules, games, hash));
    var answer := postings.DistinctGames(hash, 0, 0);
    var all: seq<nat>;
    match answer {
      case Err(e) => return Err(e);
      case Ok(ids) => all := ids;
    }
    var filtered := IdsOf(Matching(PostingsReplay.Allowed(games, Elements(all)), f.matches));
    ghost var selected := set g | g in games && (Elements(filtered) == {} || g.id in Elements(filtered));
    forall move
      ensures Players(rules, matching, hash, move) == if filtered == [] then {} else Players(rules, selected, hash, move)
    {
      FilteredPlayers(rules, games, hash, f.matches, filtered, move);
    }
    if filtered == [] {
      NobodyPlays(rules, matching, hash, width);
      return Ok([]);
    }
    r := Distribution(rules, games, postings, hash, Elements(filtered), width);
    SamePlayers(r.value, rules, selected, matching, hash, width);
  }
}
