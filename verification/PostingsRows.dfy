/** From rows to answers: which lists of rows the index takes, writes and reads back, and what it then answers. */
module PostingsRows {
  import opened Words
  import opened SortedRuns
  import opened PostingBlock
  import opened PostingsFile
  import opened PostingsArtifact
  import opened PostingsLookup
  import opened PostingsAnswers
  import opened ArtifactSize
  import opened Chess
  import opened PositionPostings

  predicate AllRowsFit(rows: seq<Row>) {
    forall i :: 0 <= i < |rows| ==> RowFits(rows[i])
  }

  /** finalize's outcome in terms of the records: only a hash with more than 2^32 - 1 of them can make it fail. */
  lemma FinalizeSucceeds(gs: seq<HashGroup>, rows: set<Triple>, m: map<nat, GameMetadata>)
    requires GroupsFor(gs, rows) && ValidMetadataMap(m) && |rows| <= MAX_RECORDS
    ensures ValidRecords(MetadataList(m))
    ensures Representable(gs, MetadataList(m), |m|) <==> CountsFit(rows)
  {
    hide ValidRecords, Representable, CountsFit, GroupRecords, ValidHashGroups, ValidMetadataMap;
    MetadataListValid(m);
    RepresentableExactly(gs, MetadataList(m), |m|, rows);
  }

  // What the rows say.

  /** Every row names a game and a result, and rows of one game say the same of it. */
  predicate RowsAgree(rows: seq<Row>) {
    && (forall i :: 0 <= i < |rows| ==> rows[i].game != 0 && -1 <= rows[i].result <= 1)
    && (forall i, j :: 0 <= i < |rows| && 0 <= j < |rows| && rows[i].game == rows[j].game ==>
          rows[i].result == rows[j].result && rows[i].whiteElo == rows[j].whiteElo && rows[i].blackElo == rows[j].blackElo)
  }

  /** Where the hash stands: game and ply. */
  ghost function Places(rows: seq<Row>, hash: nat): set<(nat, nat)> {
    set i | 0 <= i < |rows| && rows[i].hash == hash :: (rows[i].game, rows[i].ply)
  }

  predicate FromRow(m: Match, rows: seq<Row>, hash: nat) {
    exists i ::
      && 0 <= i < |rows| && rows[i].hash == hash && m.id == rows[i].game && m.ply == rows[i].ply
      && m.result == rows[i].result && m.whiteElo == rows[i].whiteElo && m.blackElo == rows[i].blackElo
  }

  /** Each row with the hash once, by game and ply. */
  ghost predicate IsAnswer(all: seq<Match>, rows: seq<Row>, hash: nat) {
    && (forall i, j :: 0 <= i < j < |all| ==> all[i].id < all[j].id || (all[i].id == all[j].id && all[i].ply < all[j].ply))
    && (forall m :: m in all <==> FromRow(m, rows, hash))
  }

  lemma AgreementIs(rows: seq<Row>)
    ensures RowsAgree(rows) <==> AllRowsOk(map[], rows)
  {
    hide AllRowsOk;
    RowsOkMeans(map[], rows);
    if NoConflicts(rows) {
      forall i, j | 0 <= i < |rows| && 0 <= j < |rows| && rows[i].game == rows[j].game
        ensures MetadataOfRow(rows[i]) == MetadataOfRow(rows[j])
      {
        assert i < j || j < i || i == j;
      }
    }
  }

  lemma {:induction false} PairsAsRecords(places: set<(nat, nat)>, hash: nat)
    ensures |set p | p in places :: Triple(hash, p.0, p.1)| == |places|
  {
    if places != {} {
      var p :| p in places;
      PairsAsRecords(places - {p}, hash);
      assert (set q | q in places :: Triple(hash, q.0, q.1)) == (set q | q in places - {p} :: Triple(hash, q.0, q.1)) + {Triple(hash, p.0, p.1)};
    } else {
      assert (set p | p in places :: Triple(hash, p.0, p.1)) == {};
    }
  }

  lemma PlacesCount(rows: seq<Row>, hash: nat)
    ensures |RecordsAt(Elements(RowRecords(rows)), hash)| == |Places(rows, hash)|
  {
    var places, records := Places(rows, hash), RecordsAt(Elements(RowRecords(rows)), hash);
    PairsAsRecords(places, hash);
    forall t
      ensures t in records <==> t in set p | p in places :: Triple(hash, p.0, p.1)
    {
      if t in records {
        var i :| 0 <= i < |rows| && RowRecords(rows)[i] == t;
        assert (rows[i].game, rows[i].ply) in places;
      }
      if t in set p | p in places :: Triple(hash, p.0, p.1) {
        var i :| 0 <= i < |rows| && rows[i].hash == hash && Triple(hash, rows[i].game, rows[i].ply) == t;
        assert RowRecords(rows)[i] == t;
      }
    }
    assert records == set p | p in places :: Triple(hash, p.0, p.1);
  }

  lemma CountsFitPlaces(rows: seq<Row>)
    ensures CountsFit(Elements(RowRecords(rows))) <==> forall h: nat :: |Places(rows, h)| <= U32_MAX
  {
    hide Places, RecordsAt, Elements;
    forall h: nat
      ensures |RecordsAt(Elements(RowRecords(rows)), h)| == |Places(rows, h)|
    {
      PlacesCount(rows, h);
    }
  }

  lemma RecordIsRow(rows: seq<Row>, hash: nat, id: nat, ply: nat)
    ensures Triple(hash, id, ply) in Elements(RowRecords(rows))
      <==> exists i :: 0 <= i < |rows| && rows[i].hash == hash && rows[i].game == id && rows[i].ply == ply
  {
    var t := Triple(hash, id, ply);
    if t in Elements(RowRecords(rows)) {
      var i :| 0 <= i < |rows| && RowRecords(rows)[i] == t;
      assert rows[i].hash == hash && rows[i].game == id && rows[i].ply == ply;
    }
    if i :| 0 <= i < |rows| && rows[i].hash == hash && rows[i].game == id && rows[i].ply == ply {
      assert RowRecords(rows)[i] == t;
    }
  }

  lemma MatchIsRow(all: seq<Match>, rows: seq<Row>, hash: nat, m: Match)
    requires AllRowsOk(map[], rows) && Answers(all, Elements(RowRecords(rows)), Learned(map[], rows), hash)
    ensures m in all <==> FromRow(m, rows, hash)
  {
    hide AllRowsOk, Learned, Elements, RowRecords;
    if m in all {
      var k :| 0 <= k < |all| && all[k] == m;
      RecordIsRow(rows, hash, m.id, m.ply);
      var i :| 0 <= i < |rows| && rows[i].hash == hash && rows[i].game == m.id && rows[i].ply == m.ply;
      LearnedMetadata(map[], rows, m.id);
    }
    if FromRow(m, rows, hash) {
      var i :| 0 <= i < |rows| && rows[i].hash == hash && m.id == rows[i].game && m.ply == rows[i].ply
               && m.result == rows[i].result && m.whiteElo == rows[i].whiteElo && m.blackElo == rows[i].blackElo;
      RecordIsRow(rows, hash, m.id, m.ply);
      var k :| 0 <= k < |all| && all[k].id == m.id && all[k].ply == m.ply;
      LearnedMetadata(map[], rows, m.id);
      assert all[k] == m;
    }
  }

  lemma AnswersFromRows(all: seq<Match>, rows: seq<Row>, hash: nat)
    requires AllRowsOk(map[], rows) && Answers(all, Elements(RowRecords(rows)), Learned(map[], rows), hash)
    ensures IsAnswer(all, rows, hash)
  {
    hide AllRowsOk, Learned, Elements, RowRecords, FromRow;
    forall m
      ensures m in all <==> FromRow(m, rows, hash)
    {
      MatchIsRow(all, rows, hash, m);
    }
  }

  /**
   * An index built from rows in one go, reopened and asked: it succeeds exactly when every row is valid, no two rows disagree about
   * their game and no hash has more than 2^32 - 1 distinct occurrences; then every page of every hash is that page of the one ascending,
   * deduplicated, joined list of its rows.
   */
  method IndexRows(rows: seq<Row>, threshold: nat, file: Option<seq<byte>>, hash: nat, limit: nat, skip: nat)
    returns (r: Result<seq<Match>>, ghost all: seq<Match>)
    requires AllRowsFit(rows) && |Elements(RowRecords(rows))| <= MAX_RECORDS
    ensures r.Ok? <==> threshold > 0 && RowsAgree(rows) && forall h: nat :: |Places(rows, h)| <= U32_MAX
    ensures r.Ok? ==> IsAnswer(all, rows, hash) && IsSlice(r.value, all, skip, if limit == 0 then |all| else limit)
  {
    hide AllRowsOk, Learned, Acceptable, Representable, Artifact, ValidRecords, MetadataList, ValidHashGroups, GroupRecords, Elements;
    hide CountsFit, Answers, OccurrencesAnswer, ReadsAs, PositionPostings.Valid, PositionPostings.Pending, ValidMetadataMap, Union;
    hide RowsAgree, Places, IsAnswer, IsSlice, Page;
    AgreementIs(rows);
    CountsFitPlaces(rows);
    all := [];
    var postings := new PositionPostings(file, threshold);
    var appended, taken := postings.Append(rows);
    if appended.Err? {
      return Err(appended.error), [];
    }
    assert rows[..|rows|] == rows;
    TableOf(postings);
    var finalized, gs := postings.Finalize();
    FinalizeSucceeds(gs, Elements(RowRecords(rows)), postings.metadata);
    if finalized.Err? {
      return Err(finalized.error), [];
    }
    var reopened := postings.OpenIndex();
    ArtifactReadsAs(gs, MetadataList(postings.metadata), |postings.metadata|, postings.artifact.value);
    forall t | t in GroupRecords(gs)
      ensures t.second in postings.metadata
    {
      InElements(GroupRecords(gs), t);
    }
    all := OccurrencesAreAnswers(gs, postings.metadata, postings.artifact.value, hash);
    AnswersFromRows(all, rows, hash);
    PageIsSlice(all, limit, skip);
    r := postings.Occurrences(hash, limit, skip);
  }

  lemma InElements<T>(s: seq<T>, x: T)
    ensures x in s <==> x in Elements(s)
  {
  }

  lemma TableOf(postings: PositionPostings)
    requires postings.Valid()
    ensures ValidMetadataMap(postings.metadata) && RowsKnown(postings.Pending(), postings.metadata)
    ensures |postings.metadata| <= U32_MAX
  {
    TableIsSmall(postings.metadata);
  }

  // A limit of the format: the reader takes at most 2^32 - 1 occurrences of one hash.

  const PLIES: nat := 65536
  const TOO_MANY: nat := 65537 * 65536

  function RepeatedRow(hash: Hash, k: nat): Row {
    Row(hash, k / PLIES + 1, k % PLIES, 0, None, None)
  }

  /** Games 1 to 65537, each standing in the same position at plies 0 to 65535. */
  function RepeatedRows(hash: Hash): (rows: seq<Row>)
    ensures |rows| == TOO_MANY
  {
    seq(TOO_MANY, k requires 0 <= k < TOO_MANY => RepeatedRow(hash, k))
  }

  lemma RepeatedAscend(hash: Hash)
    ensures StrictlySorted(RowRecords(RepeatedRows(hash)))
  {
    var s := RowRecords(RepeatedRows(hash));
    forall i, j | 0 <= i < j < |s|
      ensures Less(s[i], s[j])
    {
      assert s[i] == Triple(hash, i / PLIES + 1, i % PLIES) && s[j] == Triple(hash, j / PLIES + 1, j % PLIES);
    }
  }

  /**
   * The rows of 65537 games that stand in one position at every ply from 0 to 65535 are rows append() takes,
   * but their 4295032832 occurrences are too many for finalize().
   */
  lemma TooManyOccurrences(hash: Hash)
    ensures
      var rows := RepeatedRows(hash);
      && AllRowsFit(rows) && RowsAgree(rows) && |Places(rows, hash)| == TOO_MANY > U32_MAX
      && AllRowsOk(map[], rows)
      && |Elements(RowRecords(rows))| == TOO_MANY <= MAX_RECORDS && !CountsFit(Elements(RowRecords(rows)))
  {
    hide AllRowsOk, StrictlySorted, RowsAgree, Places;
    var rows := RepeatedRows(hash);
    forall i | 0 <= i < |rows|
      ensures RowFits(rows[i]) && RowOk(map[], rows[i])
    {
    }
    RowsOkMeans(map[], rows);
    var s := RowRecords(rows);
    RepeatedAscend(hash);
    DistinctElements(s);
    assert RecordsAt(Elements(s), hash) == Elements(s);
    AgreementIs(rows);
    PlacesCount(rows, hash);
  }
}
