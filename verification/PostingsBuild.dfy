/** Building the postings index from stored games, and what the built index answers. */
module PostingsBuild {
  import opened Words
  import opened SortedRuns
  import opened PostingBlock
  import opened PostingsFile
  import opened PostingsArtifact
  import opened PostingsLookup
  import opened PostingsAnswers
  import opened Chess
  import opened PositionPostings
  import opened PostingsRows
  import opened ArtifactSize

  /** A game the build can index: its Elos fit 16 bits and its plies 16 bits. */
  predicate Storable(g: StoredGame) {
    && |g.moves| <= U16_MAX
    && (g.whiteElo.Some? ==> IsInt16(g.whiteElo.value))
    && (g.blackElo.Some? ==> IsInt16(g.blackElo.value))
  }

  function MetadataOfGame(g: StoredGame): GameMetadata {
    GameMetadata(g.result, g.whiteElo, g.blackElo)
  }

  function RowAt(rules: Rules, g: StoredGame, ply: nat): Row
    requires ply <= |g.moves|
  {
    Row(HashAfter(rules, g.moves[..ply]), g.id, ply, g.result, g.whiteElo, g.blackElo)
  }

  function RowsOf(rules: Rules, g: StoredGame): (rows: seq<Row>)
    ensures |rows| == |g.moves| + 1
  {
    seq(|g.moves| + 1, ply requires 0 <= ply <= |g.moves| => RowAt(rules, g, ply))
  }

  /** The row the index keeps of a game, one per position reached. */
  function StoreRecords(rules: Rules, games: seq<StoredGame>): set<Triple> {
    if games == [] then {}
    else StoreRecords(rules, games[..|games| - 1]) + Elements(RowRecords(RowsOf(rules, games[|games| - 1])))
  }

  function StoreMetadata(games: seq<StoredGame>): map<nat, GameMetadata> {
    if games == [] then map[]
    else StoreMetadata(games[..|games| - 1])[games[|games| - 1].id := MetadataOfGame(games[|games| - 1])]
  }

  /** A record is indexed exactly when its game stands at that position after that many plies. */
  lemma {:induction false} StoreRecordIn(rules: Rules, games: seq<StoredGame>, t: Triple)
    ensures t in StoreRecords(rules, games) <==>
      exists i :: 0 <= i < |games| && games[i].id == t.second && t.third <= |games[i].moves|
                  && HashAfter(rules, games[i].moves[..t.third]) == t.first
  {
    if games != [] {
      var n := |games| - 1;
      var g := games[n];
      StoreRecordIn(rules, games[..n], t);
      var rows := RowRecords(RowsOf(rules, g));
      if t in rows {
        var k :| 0 <= k < |rows| && rows[k] == t;
        assert t == Triple(HashAfter(rules, g.moves[..k]), g.id, k);
      }
      if i :| 0 <= i < |games| && games[i].id == t.second && t.third <= |games[i].moves|
              && HashAfter(rules, games[i].moves[..t.third]) == t.first {
        if i == n {
          assert rows[t.third] == t;
        } else {
          assert games[..n][i] == games[i];
        }
      }
      if i :| 0 <= i < n && games[..n][i].id == t.second && t.third <= |games[..n][i].moves|
              && HashAfter(rules, games[..n][i].moves[..t.third]) == t.first {
        assert games[i] == games[..n][i];
      }
    }
  }

  lemma {:induction false} StoredIds(games: seq<StoredGame>, id: nat)
    ensures id in StoreMetadata(games) <==> exists i :: 0 <= i < |games| && games[i].id == id
  {
    if games != [] {
      var n := |games| - 1;
      StoredIds(games[..n], id);
      if i :| 0 <= i < |games| && games[i].id == id {
        assert i < n ==> games[..n][i].id == id;
      }
      if i :| 0 <= i < n && games[..n][i].id == id {
        assert games[i].id == id;
      }
    }
  }

  lemma {:induction false} StoredMetadataAt(games: seq<StoredGame>, i: nat)
    requires ValidStore(games) && i < |games|
    ensures games[i].id in StoreMetadata(games) && StoreMetadata(games)[games[i].id] == MetadataOfGame(games[i])
    decreases |games|
  {
    if i < |games| - 1 {
      StoredMetadataAt(games[..|games| - 1], i);
    }
  }

  lemma {:induction false} StoreSize(games: seq<StoredGame>)
    requires ValidStore(games)
    ensures |StoreMetadata(games)| == |games|
  {
    if games != [] {
      var n := |games| - 1;
      StoreSize(games[..n]);
      StoredIds(games[..n], games[n].id);
      var m, m' := StoreMetadata(games[..n]), StoreMetadata(games);
      assert m'.Keys == m.Keys + {games[n].id};
      assert |m'.Keys| == |m'| && |m.Keys| == |m|;
    }
  }

  lemma {:induction false} RowsLearn(m: map<nat, GameMetadata>, rules: Rules, g: StoredGame, k: nat)
    requires g.id !in m && 0 < g.id && -1 <= g.result <= 1 && k <= |g.moves| + 1
    ensures AllRowsOk(m, RowsOf(rules, g)[..k])
    ensures Learned(m, RowsOf(rules, g)[..k]) == if k == 0 then m else m[g.id := MetadataOfGame(g)]
  {
    hide RowsOf;
    if k > 0 {
      RowsLearn(m, rules, g, k - 1);
      assert RowsOf(rules, g)[..k][..k - 1] == RowsOf(rules, g)[..k - 1];
      RowOfGame(rules, g, k - 1);
    }
  }

  lemma RowOfGame(rules: Rules, g: StoredGame, ply: nat)
    requires ply <= |g.moves|
    ensures RowsOf(rules, g)[ply] == RowAt(rules, g, ply)
  {
  }

  /** The replay of one game in build(). */
  method ReplayGame(rules: Rules, g: StoredGame) returns (r: Result<seq<Row>>)
    ensures r == if Storable(g) then Ok(RowsOf(rules, g)) else Err(IoFailure)
  {
    if (g.whiteElo.Some? && !IsInt16(g.whiteElo.value)) || (g.blackElo.Some? && !IsInt16(g.blackElo.value)) {
      return Err(IoFailure);
    }
    var board := rules.start;
    assert g.moves[..0] == [];
    var rows := [Row((rules.hash)(board), g.id, 0, g.result, g.whiteElo, g.blackElo)];
    for index := 0 to |g.moves|
      invariant board == After(rules, g.moves[..index]) && index <= U16_MAX
      invariant rows == RowsOf(rules, g)[..index + 1]
    {
      if index >= U16_MAX {
        return Err(IoFailure);
      }
      AfterStep(rules, g.moves, index);
      board := (rules.step)(board, g.moves[index]);
      rows := rows + [Row((rules.hash)(board), g.id, index + 1, g.result, g.whiteElo, g.blackElo)];
    }
    assert RowsOf(rules, g)[..|g.moves| + 1] == RowsOf(rules, g);
    return Ok(rows);
  }

  lemma RowsFit(rules: Rules, g: StoredGame)
    requires Storable(g) && g.id <= U32_MAX
    ensures forall i :: 0 <= i <= |g.moves| ==> RowFits(RowsOf(rules, g)[i])
  {
  }

  predicate AllStorable(games: seq<StoredGame>) {
    forall i :: 0 <= i < |games| ==> Storable(games[i])
  }

  /** for_each_replay_game in build(): appends the rows of every game. */
  method ReplayStore(rules: Rules, games: seq<StoredGame>, postings: PositionPostings) returns (r: Result<()>)
    requires ValidStore(games) && postings.Valid() && postings.Pending() == {} && postings.metadata == map[]
    modifies postings
    ensures postings.Valid() && postings.artifact == old(postings.artifact)
    ensures r.Ok? <==> (games == [] || postings.spillThreshold > 0) && AllStorable(games)
    ensures r.Ok? ==> postings.Pending() == StoreRecords(rules, games) && postings.metadata == StoreMetadata(games)
    ensures r.Ok? ==> postings.indexedGameCount == if games == [] then old(postings.indexedGameCount) else |postings.metadata|
  {
    hide AllRowsOk, Learned, RowsOf, StoreRecords, StoreMetadata, PositionPostings.Valid, PositionPostings.Pending, Storable, RowFits;
    NothingStoredYet(rules);
    for k := 0 to |games|
      invariant postings.Valid() && postings.artifact == old(postings.artifact)
      invariant k > 0 ==> postings.spillThreshold > 0
      invariant AllStorable(games[..k])
      invariant postings.Pending() == StoreRecords(rules, games[..k])
      invariant postings.metadata == StoreMetadata(games[..k])
      invariant postings.indexedGameCount == if k == 0 then old(postings.indexedGameCount) else |postings.metadata|
    {
      var rows := ReplayGame(rules, games[k]);
      if rows.Err? {
        assert !AllStorable(games);
        return Err(rows.error);
      }
      RowsFit(rules, games[k]);
      NewGame(rules, games, k);
      var appended, taken := postings.Append(rows.value);
      assert rows.value[..|rows.value|] == rows.value;
      if appended.Err? {
        return appended;
      }
    }
    assert games[..|games|] == games;
    return Ok(());
  }

  /** One record per position of a game: a store has at most 2^32 games of 2^16 positions, so its file always has room for its sections. */
  lemma {:induction false} StoreRecordsAreFew(rules: Rules, games: seq<StoredGame>)
    requires AllStorable(games)
    ensures |StoreRecords(rules, games)| <= (U16_MAX + 1) * |games|
  {
    if games != [] {
      hide RowsOf;
      var n := |games| - 1;
      StoreRecordsAreFew(rules, games[..n]);
      ElementsAreFew(RowRecords(RowsOf(rules, games[n])));
      assert Storable(games[n]);
      UnionIsSmall(StoreRecords(rules, games[..n]), Elements(RowRecords(RowsOf(rules, games[n]))));
    }
  }

  lemma {:induction false} GameIdAt(games: seq<StoredGame>, i: nat)
    requires ValidStore(games) && i < |games|
    ensures i < games[i].id
  {
    if i > 0 {
      GameIdAt(games, i - 1);
    }
  }

  lemma StoreFinalizes(rules: Rules, games: seq<StoredGame>, gs: seq<HashGroup>)
    requires ValidStore(games) && AllStorable(games) && GroupsFor(gs, StoreRecords(rules, games))
    requires ValidMetadataMap(StoreMetadata(games))
    ensures ValidRecords(MetadataList(StoreMetadata(games)))
    ensures Representable(gs, MetadataList(StoreMetadata(games)), |games|) <==> CountsFit(StoreRecords(rules, games))
  {
    hide Representable, GroupsFor, AllStorable, ValidMetadataMap, StoreRecords, StoreMetadata, CountsFit, ValidRecords;
    StoreRecordsAreFew(rules, games);
    if games != [] {
      GameIdAt(games, |games| - 1);
    }
    StoreSize(games);
    FinalizeSucceeds(gs, StoreRecords(rules, games), StoreMetadata(games));
  }

  /** build: replays every game into a fresh index and finalizes it. */
  method Build(rules: Rules, games: seq<StoredGame>, gameCount: nat, file: Option<seq<byte>>, threshold: nat)
    returns (postings: PositionPostings, r: Result<()>, ghost gs: seq<HashGroup>)
    requires ValidStore(games) && gameCount <= U64_MAX
    ensures fresh(postings) && postings.Valid()
    ensures r.Ok? <==> threshold > 0 && AllStorable(games) && (games == [] ==> gameCount == 0) && CountsFit(StoreRecords(rules, games))
    ensures threshold > 0 && AllStorable(games) && (games == [] ==> gameCount == 0) ==>
      GroupsFor(gs, StoreRecords(rules, games)) && Published(r, gs, StoreMetadata(games), |games|, file, postings.artifact)
    ensures r.Err? ==> postings.artifact == file
    ensures r.Ok? ==> postings.artifact.Some? && IndexesStore(postings.artifact.value, rules, games)
  {
    hide Artifact, Acceptable, Representable, ValidRecords, MetadataList, GroupsFor, StoreRecords, StoreMetadata, PositionPostings.Valid, PositionPostings.Pending, AllStorable, IndexesStore;
    gs := [];
    postings := new PositionPostings(file, threshold);
    postings.SetGameCount(gameCount);
    var replayed := ReplayStore(rules, games, postings);
    if replayed.Err? {
      return postings, replayed, [];
    }
    StoreSize(games);
    // the count given by the store is still in place only if there was nothing to append
    if |games| != postings.indexedGameCount {
      return postings, Err(IoFailure), [];
    }
    TableOf(postings);
    r, gs := postings.Finalize();
    if threshold > 0 {
      StoreFinalizes(rules, games, gs);
    }
    if threshold > 0 && r.Ok? {
      IsIndex(gs, postings.artifact.value, rules, games);
    }
  }

  lemma IsIndex(gs: seq<HashGroup>, file: seq<byte>, rules: Rules, games: seq<StoredGame>)
    requires GroupsFor(gs, StoreRecords(rules, games)) && Published(Ok(()), gs, StoreMetadata(games), |games|, None, Some(file))
    ensures IndexesStore(file, rules, games)
  {
    hide GroupsFor, Published;
  }

  lemma NothingStoredYet(rules: Rules)
    ensures StoreRecords(rules, []) == {} && StoreMetadata([]) == map[]
  {
  }

  lemma NewGame(rules: Rules, games: seq<StoredGame>, k: nat)
    requires k < |games| && ValidStore(games)
    ensures
      var m, rows := StoreMetadata(games[..k]), RowsOf(rules, games[k]);
      && AllRowsOk(m, rows) && Learned(m, rows) == StoreMetadata(games[..k + 1])
      && StoreRecords(rules, games[..k + 1]) == StoreRecords(rules, games[..k]) + Elements(RowRecords(rows))
  {
    hide RowsOf, AllRowsOk, Learned, RowRecords, StoreMetadata, StoreRecords;
    var front, rows := games[..k], RowsOf(rules, games[k]);
    StoredIds(front, games[k].id);
    StoreStep(rules, games[..k + 1]);
    assert games[..k + 1][..k] == front;
    RowsLearn(StoreMetadata(front), rules, games[k], |rows|);
    assert rows[..|rows|] == rows;
  }

  lemma StoreStep(rules: Rules, games: seq<StoredGame>)
    requires games != []
    ensures
      var front, g := games[..|games| - 1], games[|games| - 1];
      && StoreMetadata(games) == StoreMetadata(front)[g.id := MetadataOfGame(g)]
      && StoreRecords(rules, games) == StoreRecords(rules, front) + Elements(RowRecords(RowsOf(rules, g)))
  {
  }

  /** The file is the postings index of the stored games. */
  ghost predicate IndexesStore(file: seq<byte>, rules: Rules, games: seq<StoredGame>) {
    exists gs :: GroupsFor(gs, StoreRecords(rules, games)) && Published(Ok(()), gs, StoreMetadata(games), |games|, None, Some(file))
  }

  /** A rebuilt index answers every page of every hash from one list: the ascending (game, ply) pairs whose position has the hash. */
  lemma BuiltIndexAnswers(rules: Rules, games: seq<StoredGame>, gs: seq<HashGroup>, file: seq<byte>, hash: nat)
    returns (all: seq<Match>)
    requires ValidStore(games) && GroupsFor(gs, StoreRecords(rules, games))
    requires Published(Ok(()), gs, StoreMetadata(games), |games|, None, Some(file))
    ensures Acceptable(file) && Answers(all, StoreRecords(rules, games), StoreMetadata(games), hash)
    ensures forall limit, skip :: OccurrencesAnswer(file, hash, limit, skip) == Ok(Page(all, limit, skip))
  {
    hide ValidRecords, Acceptable, GroupRecords, Artifact, Answers, OccurrencesAnswer, ReadsAs, Representable, StoreRecords, StoreMetadata;
    forall t | t in GroupRecords(gs)
      ensures t.second in StoreMetadata(games)
    {
      assert t in Elements(GroupRecords(gs));
      StoreRecordIn(rules, games, t);
      var i :| 0 <= i < |games| && games[i].id == t.second;
      StoredIds(games, t.second);
    }
    StoreIsSmall(games);
    ArtifactReadsAs(gs, MetadataList(StoreMetadata(games)), |games|, file);
    all := OccurrencesAreAnswers(gs, StoreMetadata(games), file, hash);
  }

  lemma StoreIsSmall(games: seq<StoredGame>)
    requires ValidStore(games) && ValidRecords(MetadataList(StoreMetadata(games)))
    ensures |games| <= U64_MAX
  {
    StoreSize(games);
    MetadataIsSmall(MetadataList(StoreMetadata(games)));
  }
}
