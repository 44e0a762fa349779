/** What a built artifact answers, in terms of the rows it was built from. */
module PostingsAnswers {
  import opened Words
  import opened SortedRuns
  import opened PostingBlock
  import opened PostingOrder
  import opened PostingsFile
  import opened PostingsArtifact
  import opened PostingsLookup

  // Hash groups as a sorted, deduplicated set of records.

  /** The game groups of a hash; none when the hash does not occur. */
  function GamesOf(gs: seq<HashGroup>, hash: nat): seq<GameGroup> {
    if gs == [] then [] else if gs[|gs| - 1].hash == hash then gs[|gs| - 1].games else GamesOf(gs[..|gs| - 1], hash)
  }

  lemma HashRecordIn(g: HashGroup, t: Triple)
    ensures t in HashRecords(g) <==> t.first == g.hash && Occurrence(t.second, t.third) in Occurrences(g.games)
  {
    hide Occurrences;
    var s := Occurrences(g.games);
    if t.first == g.hash && Occurrence(t.second, t.third) in s {
      var i :| 0 <= i < |s| && s[i] == Occurrence(t.second, t.third);
      assert HashRecords(g)[i] == t;
    }
  }

  lemma {:induction false} GamesOfAbsent(gs: seq<HashGroup>, hash: nat)
    requires forall i :: 0 <= i < |gs| ==> gs[i].hash != hash
    ensures GamesOf(gs, hash) == []
  {
    if gs != [] {
      GamesOfAbsent(gs[..|gs| - 1], hash);
    }
  }

  lemma {:induction false} GamesOfPresent(gs: seq<HashGroup>, i: nat)
    requires ValidHashGroups(gs) && i < |gs|
    ensures GamesOf(gs, gs[i].hash) == gs[i].games
    decreases |gs|
  {
    hide ValidHashGroup;
    if i < |gs| - 1 {
      GamesOfPresent(gs[..|gs| - 1], i);
    }
  }

  /** A record belongs to the groups exactly when its occurrence is listed under its hash. */
  lemma {:induction false} RecordIn(gs: seq<HashGroup>, t: Triple)
    requires ValidHashGroups(gs)
    ensures t in GroupRecords(gs) <==> Occurrence(t.second, t.third) in Occurrences(GamesOf(gs, t.first))
    ensures t in GroupRecords(gs) ==> exists i :: 0 <= i < |gs| && gs[i].hash == t.first
  {
    hide HashRecords, ValidHashGroup;
    if gs != [] {
      var n := |gs| - 1;
      RecordIn(gs[..n], t);
      HashRecordIn(gs[n], t);
      if t.first == gs[n].hash {
        GamesOfAbsent(gs[..n], t.first);
      }
    }
  }

  lemma HashRecordsAscend(g: HashGroup)
    requires ValidHashGroup(g)
    ensures StrictlySorted(HashRecords(g))
  {
    hide Occurrences;
    OccurrencesAscend(0, g.games);
  }

  lemma {:induction false} GroupRecordsAscend(gs: seq<HashGroup>)
    requires ValidHashGroups(gs)
    ensures StrictlySorted(GroupRecords(gs))
  {
    hide ValidHashGroup, HashRecords, Occurrences, GamesOf;
    if gs != [] {
      var n := |gs| - 1;
      GroupRecordsAscend(gs[..n]);
      HashRecordsAscend(gs[n]);
      var front, last := GroupRecords(gs[..n]), HashRecords(gs[n]);
      forall i, j | 0 <= i < |front| && 0 <= j < |last|
        ensures Less(front[i], last[j])
      {
        RecordIn(gs[..n], front[i]);
        HashRecordIn(gs[n], last[j]);
      }
    }
  }

  // Uniqueness of the grouping.

  lemma {:induction false} AscendingIsUnique(s: seq<nat>, t: seq<nat>)
    requires forall i, j :: 0 <= i < j < |s| ==> s[i] < s[j]
    requires forall i, j :: 0 <= i < j < |t| ==> t[i] < t[j]
    requires forall x :: x in s <==> x in t
    ensures s == t
  {
    if s != [] || t != [] {
      assert s != [] && t != [] by {
        assert s != [] ==> s[0] in t;
        assert t != [] ==> t[0] in s;
      }
      assert s[0] in t && t[0] in s;
      assert s == [s[0]] + s[1..] && t == [t[0]] + t[1..];
      assert s[0] == t[0];
      forall x
        ensures x in s[1..] <==> x in t[1..]
      {
        TailOf(s, x);
        TailOf(t, x);
      }
      AscendingIsUnique(s[1..], t[1..]);
    }
  }

  lemma TailOf(s: seq<nat>, x: nat)
    requires s != [] && forall i, j :: 0 <= i < j < |s| ==> s[i] < s[j]
    ensures x in s[1..] <==> x in s && x != s[0]
  {
    assert s == [s[0]] + s[1..];
  }

  /** Splitting off the first game group. */
  lemma FirstGroup(prev: nat, a: seq<GameGroup>)
    requires ValidGroups(prev, a) && a != []
    ensures a[0].plies != [] && Occurrence(a[0].id, a[0].plies[0]) in Occurrences(a)
    ensures forall o :: o in Occurrences(a) ==> a[0].id <= o.id
    ensures forall p :: p in a[0].plies <==> Occurrence(a[0].id, p) in Occurrences(a)
    ensures forall o :: o in Occurrences(a[1..]) <==> o in Occurrences(a) && o.id != a[0].id
    ensures forall i, j :: 0 <= i < j < |a[0].plies| ==> a[0].plies[i] < a[0].plies[j]
  {
    hide Occurrences;
    var g := a[0];
    assert [g] + a[1..] == a;
    OccurrencesCons(g, a[1..]);
    GroupRises(g);
    OccurrencesAscend(g.id, a[1..]);
    PliesRise(g.plies[0], g.plies[1..]);
    forall i, j | 0 <= i < j < |g.plies|
      ensures g.plies[i] < g.plies[j]
    {
      assert g.plies[j] == g.plies[1..][j - 1];
      assert i > 0 ==> g.plies[i] == g.plies[1..][i - 1];
    }
    forall p | p in g.plies
      ensures Occurrence(g.id, p) in GroupOccurrences(g)
    {
      var i :| 0 <= i < |g.plies| && g.plies[i] == p;
      assert GroupOccurrences(g)[i] == Occurrence(g.id, p);
    }
  }

  lemma {:induction false} GroupingIsUnique(prev: nat, a: seq<GameGroup>, b: seq<GameGroup>)
    requires ValidGroups(prev, a) && ValidGroups(prev, b)
    requires forall o :: o in Occurrences(a) <==> o in Occurrences(b)
    ensures a == b
    decreases |a|
  {
    hide Occurrences, ValidGroup;
    NothingOccurs();
    if a != [] {
      FirstGroup(prev, a);
    }
    if b != [] {
      FirstGroup(prev, b);
    }
    if a != [] && b != [] {
      assert a[0].id == b[0].id;
      AscendingIsUnique(a[0].plies, b[0].plies);
      GroupingIsUnique(a[0].id, a[1..], b[1..]);
      assert a == [a[0]] + a[1..] && b == [b[0]] + b[1..];
    }
  }

  function Hashes(gs: seq<HashGroup>): (hashes: seq<nat>)
    ensures |hashes| == |gs|
  {
    seq(|gs|, i requires 0 <= i < |gs| => gs[i].hash)
  }

  lemma HashOccurs(gs: seq<HashGroup>, i: nat)
    requires ValidHashGroups(gs) && i < |gs|
    ensures exists t :: t in GroupRecords(gs) && t.first == gs[i].hash
  {
    hide Occurrences, GroupRecords, GamesOf;
    GamesOfPresent(gs, i);
    FirstGroup(0, gs[i].games);
    var g := gs[i].games[0];
    RecordIn(gs, Triple(gs[i].hash, g.id, g.plies[0]));
  }

  lemma HashesCover(a: seq<HashGroup>, b: seq<HashGroup>, hash: nat)
    requires ValidHashGroups(a) && ValidHashGroups(b) && Elements(GroupRecords(a)) <= Elements(GroupRecords(b))
    requires hash in Hashes(a)
    ensures hash in Hashes(b)
  {
    hide GroupRecords, GamesOf, ValidHashGroups, Occurrences;
    var i: nat :| i < |a| && a[i].hash == hash;
    HashOccurs(a, i);
    var t :| t in GroupRecords(a) && t.first == hash;
    assert t in Elements(GroupRecords(b));
    RecordIn(b, t);
    var k :| 0 <= k < |b| && b[k].hash == hash;
    assert Hashes(b)[k] == hash;
  }

  /** The hash groups, and with them the whole posting section, are determined by the set of records. */
  lemma GroupsAreUnique(a: seq<HashGroup>, b: seq<HashGroup>)
    requires ValidHashGroups(a) && ValidHashGroups(b) && Elements(GroupRecords(a)) == Elements(GroupRecords(b))
    ensures a == b
  {
    hide GroupRecords, GamesOf, Occurrences;
    forall hash
      ensures hash in Hashes(a) <==> hash in Hashes(b)
    {
      if hash in Hashes(a) {
        HashesCover(a, b, hash);
      }
      if hash in Hashes(b) {
        HashesCover(b, a, hash);
      }
    }
    AscendingIsUnique(Hashes(a), Hashes(b));
    forall i | 0 <= i < |a|
      ensures a[i] == b[i]
    {
      assert Hashes(a)[i] == Hashes(b)[i];
      GamesOfPresent(a, i);
      GamesOfPresent(b, i);
      forall o
        ensures o in Occurrences(a[i].games) <==> o in Occurrences(b[i].games)
      {
        var t := Triple(a[i].hash, o.id, o.ply);
        RecordIn(a, t);
        RecordIn(b, t);
        assert t in GroupRecords(a) <==> t in Elements(GroupRecords(b));
      }
      GroupingIsUnique(0, a[i].games, b[i].games);
    }
  }

  // Game metadata as a map.

  predicate IsLeastId(ids: set<nat>, id: nat) {
    id in ids && forall other :: other in ids ==> id <= other
  }

  lemma {:induction false} LeastIdExists(ids: set<nat>)
    requires ids != {}
    ensures exists id: nat :: IsLeastId(ids, id)
  {
    var id :| id in ids;
    if ids == {id} {
      assert IsLeastId(ids, id);
    } else {
      LeastIdExists(ids - {id});
      var other: nat :| IsLeastId(ids - {id}, other);
      var least := if other < id then other else id;
      forall x | x in ids
        ensures least <= x
      {
        assert x == id || x in ids - {id};
      }
      assert IsLeastId(ids, least);
    }
  }

  ghost function LeastId(ids: set<nat>): (id: nat)
    requires ids != {}
    ensures IsLeastId(ids, id)
  {
    LeastIdExists(ids);
    var id: nat :| IsLeastId(ids, id);
    id
  }

  lemma RestOfMap(m: map<nat, GameMetadata>, id: nat)
    requires id in m
    ensures |m - {id}| == |m| - 1 && (m - {id}).Keys == m.Keys - {id}
  {
    assert (m - {id}).Keys == m.Keys - {id};
    assert |(m - {id}).Keys| == |m - {id}| && |m.Keys| == |m|;
  }

  /** The metadata table: one record per game, by ascending id. */
  ghost function MetadataList(m: map<nat, GameMetadata>): (records: seq<MetadataRecord>)
    decreases |m|
    ensures |records| == |m|
  {
    if m.Keys == {} then
      assert |m.Keys| == |m|;
      []
    else
      var id := LeastId(m.Keys);
      RestOfMap(m, id);
      [MetadataRecord(id, m[id])] + MetadataList(m - {id})
  }

  ghost predicate ValidMetadataMap(m: map<nat, GameMetadata>) {
    forall id :: id in m ==> 0 < id <= U32_MAX && ValidMetadata(m[id])
  }

  lemma {:induction false} MetadataListHolds(m: map<nat, GameMetadata>)
    ensures forall i, j :: 0 <= i < j < |m| ==> MetadataList(m)[i].id < MetadataList(m)[j].id
    ensures forall i :: 0 <= i < |m| ==> MetadataList(m)[i].id in m && MetadataList(m)[i].metadata == m[MetadataList(m)[i].id]
    ensures forall id :: MetadataOf(MetadataList(m), id) == if id in m then Some(m[id]) else None
    decreases |m|
  {
    if m.Keys == {} {
      assert |m.Keys| == |m|;
    } else {
      var id := LeastId(m.Keys);
      RestOfMap(m, id);
      var rest, records := m - {id}, MetadataList(m);
      MetadataListHolds(rest);
      assert records[0] == MetadataRecord(id, m[id]) && records[1..] == MetadataList(rest);
      hide MetadataList;
      forall i | 0 < i < |m|
        ensures records[i] == MetadataList(rest)[i - 1] && id < records[i].id
        ensures records[i].id in m && records[i].metadata == m[records[i].id]
      {
        assert records[i] == records[1..][i - 1];
      }
      forall k
        ensures MetadataOf(records, k) == if k in m then Some(m[k]) else None
      {
        assert MetadataOf(records, k) == if k == id then Some(m[id]) else MetadataOf(MetadataList(rest), k);
        assert k in rest <==> k in m && k != id;
      }
    }
  }

  lemma MetadataListValid(m: map<nat, GameMetadata>)
    requires ValidMetadataMap(m)
    ensures ValidRecords(MetadataList(m))
  {
    hide MetadataList, ValidMetadata, MetadataOf;
    MetadataListHolds(m);
  }

  // Answers.

  /** The full answer for a hash: its distinct (game, ply) pairs in ascending order, each with its game's metadata. */
  ghost predicate Answers(matches: seq<Match>, rows: set<Triple>, m: map<nat, GameMetadata>, hash: nat) {
    && (forall i, j :: 0 <= i < j < |matches| ==>
          Before(Occurrence(matches[i].id, matches[i].ply), Occurrence(matches[j].id, matches[j].ply)))
    && (forall i :: 0 <= i < |matches| ==> Triple(hash, matches[i].id, matches[i].ply) in rows)
    && (forall id: nat, ply: nat :: Triple(hash, id, ply) in rows ==>
          exists i :: 0 <= i < |matches| && matches[i].id == id && matches[i].ply == ply)
    && (forall i :: 0 <= i < |matches| ==>
          matches[i].id in m && matches[i] == WithMetadata(Occurrence(matches[i].id, matches[i].ply), m[matches[i].id]))
  }

  function WithMetadata(o: Occurrence, m: GameMetadata): Match {
    Match(o.id, o.ply, m.result, m.whiteElo, m.blackElo)
  }

  function RecordsOf(hash: nat, matches: seq<Match>): (s: seq<Triple>)
    ensures |s| == |matches|
  {
    seq(|matches|, i requires 0 <= i < |matches| => Triple(hash, matches[i].id, matches[i].ply))
  }

  lemma AnswerRecords(matches: seq<Match>, rows: set<Triple>, m: map<nat, GameMetadata>, hash: nat)
    requires Answers(matches, rows, m, hash)
    ensures StrictlySorted(RecordsOf(hash, matches))
    ensures forall t :: t in RecordsOf(hash, matches) <==> t in rows && t.first == hash
  {
    forall t | t in rows && t.first == hash
      ensures t in RecordsOf(hash, matches)
    {
      assert Triple(hash, t.second, t.third) in rows;
      var i :| 0 <= i < |matches| && matches[i].id == t.second && matches[i].ply == t.third;
      assert RecordsOf(hash, matches)[i] == t;
    }
  }

  /** There is only one such answer. */
  lemma AnswersAreUnique(a: seq<Match>, b: seq<Match>, rows: set<Triple>, m: map<nat, GameMetadata>, hash: nat)
    requires Answers(a, rows, m, hash) && Answers(b, rows, m, hash)
    ensures a == b
  {
    AnswerRecords(a, rows, m, hash);
    AnswerRecords(b, rows, m, hash);
    var s, t := RecordsOf(hash, a), RecordsOf(hash, b);
    assert Elements(s) == Elements(t);
    StrictlySortedIsUnique(s, t);
    forall i | 0 <= i < |a|
      ensures a[i] == b[i]
    {
      assert s[i] == t[i];
    }
  }

  function WithAllMetadata(s: seq<Occurrence>, m: map<nat, GameMetadata>): (matches: seq<Match>)
    requires forall o :: o in s ==> o.id in m
    ensures |matches| == |s|
  {
    seq(|s|, i requires 0 <= i < |s| => WithMetadata(s[i], m[s[i].id]))
  }

  lemma {:induction false} JoinSucceeds(s: seq<Occurrence>, m: map<nat, GameMetadata>)
    requires forall o :: o in s ==> o.id in m
    ensures Join(s, MetadataList(m)) == Ok(WithAllMetadata(s, m))
  {
    if s != [] {
      JoinSucceeds(s[..|s| - 1], m);
      MetadataListHolds(m);
      assert WithAllMetadata(s, m) == WithAllMetadata(s[..|s| - 1], m) + [WithMetadata(s[|s| - 1], m[s[|s| - 1].id])];
    }
  }

  lemma PageOfJoin(s: seq<Occurrence>, m: map<nat, GameMetadata>, limit: nat, skip: nat)
    requires forall o :: o in s ==> o.id in m
    ensures forall o :: o in Page(s, limit, skip) ==> o.id in m
    ensures WithAllMetadata(Page(s, limit, skip), m) == Page(WithAllMetadata(s, m), limit, skip)
  {
  }

  // What a reader sees of a built file.

  ghost predicate GroupReads(file: seq<byte>, e: Entry, games: seq<GameGroup>) {
    e.offset + e.length <= |file| && Decode(PostingData(file, e), e) == Some(games)
  }

  /** The file is accepted, and its metadata, its directory and its posting blocks are those of the groups and records. */
  ghost predicate ReadsAs(file: seq<byte>, gs: seq<HashGroup>, records: seq<MetadataRecord>) {
    && Acceptable(file)
    && IndexOf(file).metadata == records
    && Directory(file, IndexOf(file)) == EntriesOf(gs)
    && forall i :: 0 <= i < |gs| ==> GroupReads(file, EntriesOf(gs)[i], gs[i].games)
  }

  lemma ArtifactReadsAs(gs: seq<HashGroup>, records: seq<MetadataRecord>, indexedGames: nat, file: seq<byte>)
    requires ValidHashGroups(gs) && ValidRecords(records) && indexedGames <= U64_MAX
    requires file == Artifact(gs, records, indexedGames)
    ensures Acceptable(file) ==> ReadsAs(file, gs, records)
  {
    hide Artifact, EntriesOf, Decode, ValidRecords, EncodeGroups, Acceptable, IndexOf, Directory, ValidHashGroups, GroupReads;
    ArtifactIsAcceptable(gs, records, indexedGames, file);
    forall i | 0 <= i < |gs|
      ensures GroupReads(file, EntriesOf(gs)[i], gs[i].games)
    {
      StoredGroupDecodes(gs, records, indexedGames, i);
    }
  }

  lemma StoredGroupDecodes(gs: seq<HashGroup>, records: seq<MetadataRecord>, indexedGames: nat, i: nat)
    requires ValidHashGroups(gs) && ValidRecords(records) && i < |gs|
    ensures GroupReads(Artifact(gs, records, indexedGames), EntriesOf(gs)[i], gs[i].games)
  {
    hide Artifact, EntriesOf, Decode, ValidRecords, EncodeGroups, ValidHashGroups;
    PostingIsStored(gs, records, indexedGames, i);
    GroupDecodes(gs, i);
  }

  lemma GroupDecodes(gs: seq<HashGroup>, i: nat)
    requires ValidHashGroups(gs) && i < |gs|
    ensures Decode(EncodeGroups(0, gs[i].games), EntriesOf(gs)[i]) == Some(gs[i].games)
  {
    hide EntriesOf, Decode, EncodeGroups, MinPly, MaxPly, Occurrences, ValidGroups;
    EntryAt(gs, i);
    ValidIsStored(0, gs[i].games);
    DecodeAcceptsExactlyBlocks(EncodeGroups(0, gs[i].games), EntriesOf(gs)[i], gs[i].games);
  }

  /** Lookup in a built directory is lookup among the groups. */
  lemma PostingOfArtifact(gs: seq<HashGroup>, records: seq<MetadataRecord>, file: seq<byte>, hash: nat)
    requires ValidHashGroups(gs) && ReadsAs(file, gs, records)
    ensures Posting(file, hash) == Ok(GamesOf(gs, hash))
  {
    hide EntriesOf, Decode, Lookup, IndexOf, Acceptable, Directory, GamesOf, ValidHashGroups;
    var es := EntriesOf(gs);
    LookupFinds(es, hash);
    if i :| 0 <= i < |gs| && gs[i].hash == hash {
      ArtifactHashesAscend(file);
      EntryHashAt(gs, i);
      assert GroupReads(file, es[i], gs[i].games);
      GamesOfPresent(gs, i);
    } else {
      GamesOfAbsent(gs, hash);
      forall i | 0 <= i < |es|
        ensures es[i].hash != hash
      {
        EntryHashAt(gs, i);
      }
    }
  }

  /** The entry a built directory holds for a hash describes exactly its game groups. */
  lemma EntryOfHash(gs: seq<HashGroup>, records: seq<MetadataRecord>, file: seq<byte>, hash: nat)
    requires ValidHashGroups(gs) && ReadsAs(file, gs, records)
    ensures
      var found, games := Lookup(EntriesOf(gs), hash), GamesOf(gs, hash);
      && (found.None? <==> games == [])
      && (found.Some? ==> found.value.games == |games| && found.value.maxPly == MaxPly(Occurrences(games)))
  {
    hide EntriesOf, Lookup, IndexOf, Acceptable, Directory, GamesOf, Occurrences, MaxPly, MinPly;
    var es := EntriesOf(gs);
    LookupFinds(es, hash);
    if i :| 0 <= i < |gs| && gs[i].hash == hash {
      ArtifactHashesAscend(file);
      EntryHashAt(gs, i);
      EntryAt(gs, i);
      GamesOfPresent(gs, i);
    } else {
      GamesOfAbsent(gs, hash);
      forall i | 0 <= i < |es|
        ensures es[i].hash != hash
      {
        EntryHashAt(gs, i);
      }
    }
  }

  lemma ArtifactHashesAscend(file: seq<byte>)
    requires Acceptable(file)
    ensures DirectoryAscending(Directory(file, IndexOf(file)))
  {
    hide DirectoryOk, Directory, HeaderOk, MetadataOk, SparseOk, BlocksOk;
    DirectoryAscends(Directory(file, IndexOf(file)), HEADER_SIZE);
  }

  /** Every page of every query is that page of the one ascending, deduplicated, joined answer. */
  lemma OccurrencesAreAnswers(gs: seq<HashGroup>, m: map<nat, GameMetadata>, file: seq<byte>, hash: nat)
    returns (all: seq<Match>)
    requires ValidHashGroups(gs) && ReadsAs(file, gs, MetadataList(m))
    requires forall t :: t in GroupRecords(gs) ==> t.second in m
    ensures Answers(all, Elements(GroupRecords(gs)), m, hash)
    ensures forall limit, skip :: OccurrencesAnswer(file, hash, limit, skip) == Ok(Page(all, limit, skip))
  {
    hide Acceptable, GroupReads, EntriesOf, Directory, GroupRecords, GamesOf, Occurrences, Join, Page, IndexOf, ValidRecords;
    PostingOfArtifact(gs, MetadataList(m), file, hash);
    var groups := GamesOf(gs, hash);
    var s := Occurrences(groups);
    GamesValid(gs, hash);
    OccurrencesAscend(0, groups);
    forall o
      ensures o in s <==> Triple(hash, o.id, o.ply) in GroupRecords(gs)
    {
      RecordIn(gs, Triple(hash, o.id, o.ply));
    }
    all := WithAllMetadata(s, m);
    forall id: nat, ply: nat | Triple(hash, id, ply) in Elements(GroupRecords(gs))
      ensures exists i :: 0 <= i < |all| && all[i].id == id && all[i].ply == ply
    {
      assert Occurrence(id, ply) in s;
      var i :| 0 <= i < |s| && s[i] == Occurrence(id, ply);
      assert all[i].id == id && all[i].ply == ply;
    }
    forall i | 0 <= i < |all|
      ensures Triple(hash, all[i].id, all[i].ply) in Elements(GroupRecords(gs))
    {
      assert s[i] in s;
    }
    forall limit, skip
      ensures OccurrencesAnswer(file, hash, limit, skip) == Ok(Page(all, limit, skip))
    {
      PageOfJoin(s, m, limit, skip);
      JoinSucceeds(Page(s, limit, skip), m);
    }
  }

  lemma {:induction false} GamesValid(gs: seq<HashGroup>, hash: nat)
    requires ValidHashGroups(gs)
    ensures ValidGroups(0, GamesOf(gs, hash))
  {
    if gs != [] {
      GamesValid(gs[..|gs| - 1], hash);
    }
  }

  /** The distinct games are the ascending ids of the games that reach the hash; none of them lacks metadata. */
  lemma GameIdsAreAnswers(gs: seq<HashGroup>, m: map<nat, GameMetadata>, file: seq<byte>, hash: nat)
    requires ValidHashGroups(gs) && ReadsAs(file, gs, MetadataList(m))
    requires forall t :: t in GroupRecords(gs) ==> t.second in m
    ensures
      var r := GameIdsAnswer(file, hash);
      && r.Ok?
      && (forall i, j :: 0 <= i < j < |r.value| ==> r.value[i] < r.value[j])
      && (forall id :: id in r.value <==> exists t :: t in GroupRecords(gs) && t.first == hash && t.second == id)
  {
    hide Acceptable, GroupReads, EntriesOf, Directory, GroupRecords, GamesOf, Occurrences, IndexOf, ValidRecords, GameIds, MetadataOf;
    PostingOfArtifact(gs, MetadataList(m), file, hash);
    var groups := GamesOf(gs, hash);
    GamesValid(gs, hash);
    ValidIsStored(0, groups);
    GameIdsProject(0, groups);
    MetadataListHolds(m);
    var ids := GameIds(groups);
    forall id
      ensures id in ids <==> exists t :: t in GroupRecords(gs) && t.first == hash && t.second == id
    {
      if id in ids {
        var o :| o in Occurrences(groups) && o.id == id;
        RecordIn(gs, Triple(hash, id, o.ply));
        assert Triple(hash, id, o.ply) in GroupRecords(gs);
      }
      if t :| t in GroupRecords(gs) && t.first == hash && t.second == id {
        RecordIn(gs, t);
        assert Occurrence(id, t.third) in Occurrences(groups);
      }
    }
    forall i | 0 <= i < |ids|
      ensures MetadataOf(MetadataList(m), ids[i]).Some?
    {
      assert ids[i] in ids;
    }
    assert AllKnown(ids, MetadataList(m));
  }

  lemma {:induction false} LeastPly(s: seq<Occurrence>, id: nat)
    requires exists o :: o in s && o.id == id
    ensures exists o :: o in s && o.id == id && forall p :: p in s && p.id == id ==> o.ply <= p.ply
  {
    var rest, last := s[..|s| - 1], s[|s| - 1];
    assert s == rest + [last];
    if exists o :: o in rest && o.id == id {
      LeastPly(rest, id);
      var o :| o in rest && o.id == id && forall p :: p in rest && p.id == id ==> o.ply <= p.ply;
      var least := if last.id == id && last.ply < o.ply then last else o;
      assert least in s && forall p :: p in s && p.id == id ==> least.ply <= p.ply;
    } else {
      assert last in s && forall p :: p in s && p.id == id ==> last.ply <= p.ply;
    }
  }

  lemma FirstsPerGame(groups: seq<GameGroup>, requested: seq<nat>)
    requires ValidGroups(0, groups)
    ensures
      var firsts := FirstOccurrences(groups, requested);
      && (forall i, j :: 0 <= i < j < |firsts| ==> firsts[i].id < firsts[j].id)
      && (forall o :: o in Occurrences(groups) && o.id in requested ==> exists k :: 0 <= k < |firsts| && firsts[k].id == o.id)
  {
    hide Occurrences, FirstOccurrences;
    FirstOccurrencesProject(0, groups, requested);
    var firsts := FirstOccurrences(groups, requested);
    forall i, j | 0 <= i < j < |firsts|
      ensures firsts[i].id < firsts[j].id
    {
      assert firsts[i] in firsts && firsts[j] in firsts && Before(firsts[i], firsts[j]);
    }
    forall o | o in Occurrences(groups) && o.id in requested
      ensures exists k :: 0 <= k < |firsts| && firsts[k].id == o.id
    {
      LeastPly(Occurrences(groups), o.id);
      var p :| p in Occurrences(groups) && p.id == o.id && forall q :: q in Occurrences(groups) && q.id == o.id ==> p.ply <= q.ply;
      assert p in firsts;
    }
  }

  ghost predicate IsFirst(x: Match, rows: set<Triple>, hash: nat) {
    Triple(hash, x.id, x.ply) in rows && forall ply: nat :: Triple(hash, x.id, ply) in rows ==> x.ply <= ply
  }

  /** In id order, the lowest ply of every requested game with a row, joined with the metadata. */
  ghost predicate AreFirsts(matches: seq<Match>, rows: set<Triple>, m: map<nat, GameMetadata>, hash: nat, requested: seq<nat>) {
    && (forall i, j :: 0 <= i < j < |matches| ==> matches[i].id < matches[j].id)
    && (forall i :: 0 <= i < |matches| ==>
          IsFirst(matches[i], rows, hash) && matches[i].id in requested && matches[i].id in m
          && matches[i] == WithMetadata(Occurrence(matches[i].id, matches[i].ply), m[matches[i].id]))
    && (forall t :: t in rows && t.first == hash && t.second in requested ==> exists i :: 0 <= i < |matches| && matches[i].id == t.second)
  }

  lemma LeastIsFirst(s: seq<Occurrence>, o: Occurrence, rows: set<Triple>, m: GameMetadata, hash: nat)
    requires forall p :: p in s <==> Triple(hash, p.id, p.ply) in rows
    requires o in s && forall p :: p in s && p.id == o.id ==> o.ply <= p.ply
    ensures IsFirst(WithMetadata(o, m), rows, hash)
  {
    forall ply: nat | Triple(hash, o.id, ply) in rows
      ensures o.ply <= ply
    {
      assert Occurrence(o.id, ply) in s;
    }
  }

  lemma FirstsJoined(groups: seq<GameGroup>, rows: set<Triple>, m: map<nat, GameMetadata>, hash: nat, requested: seq<nat>)
    requires ValidGroups(0, groups)
    requires forall o :: o in Occurrences(groups) <==> Triple(hash, o.id, o.ply) in rows
    requires forall t :: t in rows ==> t.second in m
    ensures
      var firsts := FirstOccurrences(groups, requested);
      (forall o :: o in firsts ==> o.id in m) && AreFirsts(WithAllMetadata(firsts, m), rows, m, hash, requested)
  {
    hide Occurrences, FirstOccurrences, ValidGroups, IsFirst, Ascending;
    FirstOccurrencesProject(0, groups, requested);
    FirstsPerGame(groups, requested);
    var s, firsts := Occurrences(groups), FirstOccurrences(groups, requested);
    forall o | o in firsts
      ensures o.id in m && o.id in requested && IsFirst(WithMetadata(o, m[o.id]), rows, hash)
    {
      assert Triple(hash, o.id, o.ply) in rows;
      LeastIsFirst(s, o, rows, m[o.id], hash);
    }
    forall t | t in rows && t.first == hash && t.second in requested
      ensures exists i :: 0 <= i < |firsts| && firsts[i].id == t.second
    {
      assert Occurrence(t.second, t.third) in s;
    }
    FirstsListed(firsts, rows, m, hash, requested);
  }

  lemma FirstsListed(firsts: seq<Occurrence>, rows: set<Triple>, m: map<nat, GameMetadata>, hash: nat, requested: seq<nat>)
    requires forall i, j :: 0 <= i < j < |firsts| ==> firsts[i].id < firsts[j].id
    requires forall o :: o in firsts ==> o.id in m && o.id in requested && IsFirst(WithMetadata(o, m[o.id]), rows, hash)
    requires forall t :: t in rows && t.first == hash && t.second in requested ==> exists i :: 0 <= i < |firsts| && firsts[i].id == t.second
    ensures AreFirsts(WithAllMetadata(firsts, m), rows, m, hash, requested)
  {
    hide IsFirst;
    var all := WithAllMetadata(firsts, m);
    forall i | 0 <= i < |all|
      ensures IsFirst(all[i], rows, hash) && all[i].id in requested
    {
      assert firsts[i] in firsts;
    }
    forall t | t in rows && t.first == hash && t.second in requested
      ensures exists i :: 0 <= i < |all| && all[i].id == t.second
    {
      var k :| 0 <= k < |firsts| && firsts[k].id == t.second;
      assert all[k].id == t.second;
    }
  }

  /** first_occurrences returns, in id order, the lowest ply of every requested game that reaches the hash. */
  lemma FirstsAreAnswers(gs: seq<HashGroup>, m: map<nat, GameMetadata>, file: seq<byte>, hash: nat, requested: seq<nat>)
    requires ValidHashGroups(gs) && ReadsAs(file, gs, MetadataList(m))
    requires forall t :: t in GroupRecords(gs) ==> t.second in m
    ensures
      var r := FirstsAnswer(file, hash, requested);
      r.Ok? && AreFirsts(r.value, Elements(GroupRecords(gs)), m, hash, requested)
  {
    hide Acceptable, GroupReads, EntriesOf, Directory, GroupRecords, GamesOf, Occurrences, IndexOf, FirstOccurrences, Join, AreFirsts;
    PostingOfArtifact(gs, MetadataList(m), file, hash);
    var groups := GamesOf(gs, hash);
    GamesValid(gs, hash);
    forall o: Occurrence
      ensures o in Occurrences(groups) <==> Triple(hash, o.id, o.ply) in Elements(GroupRecords(gs))
    {
      RecordIn(gs, Triple(hash, o.id, o.ply));
    }
    FirstsJoined(groups, Elements(GroupRecords(gs)), m, hash, requested);
    JoinSucceeds(FirstOccurrences(groups, requested), m);
  }
}
