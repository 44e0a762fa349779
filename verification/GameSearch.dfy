/** Searching the stored games that reach a position: paging the ids first must give the page of the whole list. */
module GameSearch {
  import opened Words
  import opened SortedRuns
  import opened PostingBlock
  import opened PostingsFile
  import opened PostingsLookup
  import opened PostingsAnswers
  import opened PositionPostings
  import opened PostingsBuild
  import opened Chess
  import opened OpeningStats
  import opened PostingsReplay
  import opened OpeningQueries

  const MAX_SEARCH_LIMIT: nat := 500
  const SQLITE_MAX: nat := 0x7FFF_FFFF_FFFF_FFFF

  /** A search at a position; the metadata conditions and the orders other than by ascending id are arbitrary. */
  datatype Filter = Filter(limit: nat, offset: nat, hasMetadata: bool, matches: StoredGame -> bool,
                           byId: bool, order: seq<StoredGame> -> seq<StoredGame>)

  /** Without metadata conditions every game matches; sorting neither loses nor adds a row. */
  ghost predicate FilterOk(f: Filter) {
    && (!f.hasMetadata ==> forall g :: f.matches(g))
    && forall rows :: multiset((f.order)(rows)) == multiset(rows)
  }

  datatype GameList = GameList(games: seq<StoredGame>, total: nat)

  function Matching(games: seq<StoredGame>, matches: StoredGame -> bool): seq<StoredGame> {
    if games == [] then []
    else
      var front := Matching(games[..|games| - 1], matches);
      if matches(games[|games| - 1]) then front + [games[|games| - 1]] else front
  }

  function Ordered(f: Filter, rows: seq<StoredGame>): seq<StoredGame> {
    if f.byId then rows else (f.order)(rows)
  }

  /** find_games_with_ids: count and page of the stored games with a listed id that match. */
  function StorePage(games: seq<StoredGame>, ids: seq<nat>, f: Filter): Result<GameList> {
    if ids == [] then Ok(GameList([], 0))
    else if f.offset > SQLITE_MAX then Err(IoFailure)
    else
      var rows, limit := Matching(Allowed(games, Elements(ids)), f.matches), Min(f.limit, MAX_SEARCH_LIMIT);
      Ok(GameList(if rows == [] || limit == 0 then [] else Window(Ordered(f, rows), f.offset, limit), |rows|))
  }

  predicate Eligible(f: Filter) {
    !f.hasMetadata && f.byId
  }

  function IdsOf(games: seq<StoredGame>): (ids: seq<nat>)
    ensures |ids| == |games|
  {
    seq(|games|, i requires 0 <= i < |games| => games[i].id)
  }

  /** Ascending ids of stored games. */
  ghost predicate AreStored(ids: seq<nat>, games: seq<StoredGame>) {
    && (forall i, j :: 0 <= i < j < |ids| ==> ids[i] < ids[j])
    && (forall id :: id in ids ==> exists g :: g in games && g.id == id)
  }

  lemma {:induction false} AllMatch(games: seq<StoredGame>, matches: StoredGame -> bool)
    requires forall g :: matches(g)
    ensures Matching(games, matches) == games
  {
    if games != [] {
      AllMatch(games[..|games| - 1], matches);
      assert games == games[..|games| - 1] + [games[|games| - 1]];
    }
  }

  lemma {:induction false} MatchingAre(games: seq<StoredGame>, matches: StoredGame -> bool)
    ensures forall g :: g in Matching(games, matches) <==> g in games && matches(g)
  {
    if games != [] {
      MatchingAre(games[..|games| - 1], matches);
      assert games == games[..|games| - 1] + [games[|games| - 1]];
    }
  }

  /** Selecting ascending stored ids gives exactly their games, in their order. */
  lemma SelectedIds(games: seq<StoredGame>, ids: seq<nat>)
    requires ValidStore(games) && AreStored(ids, games)
    ensures IdsOf(Allowed(games, Elements(ids))) == ids
  {
    hide Allowed;
    AllowedAre(games, Elements(ids));
    var rows := Allowed(games, Elements(ids));
    forall id
      ensures id in IdsOf(rows) <==> id in ids
    {
      if id in IdsOf(rows) {
        var i :| 0 <= i < |rows| && IdsOf(rows)[i] == id;
        assert rows[i] in rows;
      }
      if id in ids {
        var g :| g in games && g.id == id;
        assert g in rows;
        var i :| 0 <= i < |rows| && rows[i] == g;
        assert IdsOf(rows)[i] == id;
      }
    }
    AscendingIsUnique(IdsOf(rows), ids);
  }

  lemma RowsById(games: seq<StoredGame>, a: seq<StoredGame>, b: seq<StoredGame>)
    requires ValidStore(games) && IdsOf(a) == IdsOf(b)
    requires (forall g :: g in a ==> g in games) && (forall g :: g in b ==> g in games)
    ensures a == b
  {
    hide ValidStore;
    assert |a| == |IdsOf(a)| == |b|;
    forall i | 0 <= i < |a|
      ensures a[i] == b[i]
    {
      assert a[i].id == IdsOf(a)[i] == b[i].id;
      SameId(games, a[i], b[i]);
    }
  }

  lemma PageIsStored(ids: seq<nat>, games: seq<StoredGame>, limit: nat, skip: nat)
    requires AreStored(ids, games)
    ensures AreStored(Page(ids, limit, skip), games)
  {
    var page, from := Page(ids, limit, skip), Min(skip, |ids|);
    assert forall k :: 0 <= k < |page| ==> page[k] == ids[from + k];
    assert forall id :: id in page ==> id in ids;
  }

  lemma PageMembers(s: seq<StoredGame>, limit: nat, skip: nat)
    ensures forall g :: g in Page(s, limit, skip) ==> g in s
    ensures IdsOf(Page(s, limit, skip)) == Page(IdsOf(s), limit, skip)
  {
  }

  /** Selecting a page of the ids is the page of the selection. */
  lemma SelectedPage(games: seq<StoredGame>, ids: seq<nat>, limit: nat, skip: nat)
    requires ValidStore(games) && AreStored(ids, games)
    ensures Allowed(games, Elements(Page(ids, limit, skip))) == Page(Allowed(games, Elements(ids)), limit, skip)
  {
    hide Allowed, Page, AreStored, IdsOf, ValidStore;
    var rows, page := Allowed(games, Elements(ids)), Page(ids, limit, skip);
    PageIsStored(ids, games, limit, skip);
    SelectedIds(games, ids);
    SelectedIds(games, page);
    AllowedAre(games, Elements(ids));
    AllowedAre(games, Elements(page));
    PageMembers(rows, limit, skip);
    RowsById(games, Allowed(games, Elements(page)), Page(rows, limit, skip));
  }

  /** What the fast path answers: the page of the ids, with the position's own count as total. */
  function FastPage(games: seq<StoredGame>, ids: seq<nat>, f: Filter): Result<GameList> {
    if ids == [] then Ok(GameList([], 0))
    else
      match StorePage(games, Page(ids, f.limit, f.offset), f.(offset := 0))
      case Err(e) => Err(e)
      case Ok(page) => Ok(page.(total := |ids|))
  }

  /** Both ways list the games of one slice of the ids. */
  lemma SlowPageIs(games: seq<StoredGame>, ids: seq<nat>, f: Filter)
    requires ValidStore(games) && AreStored(ids, games) && FilterOk(f) && Eligible(f) && f.offset <= SQLITE_MAX
    ensures
      var rows := Allowed(games, Elements(ids));
      && IdsOf(rows) == ids
      && StorePage(games, ids, f) == Ok(GameList(Window(rows, f.offset, Min(f.limit, MAX_SEARCH_LIMIT)), |ids|))
  {
    hide Allowed, ValidStore, AreStored;
    SelectedIds(games, ids);
    var rows := Allowed(games, Elements(ids));
    AllMatch(rows, f.matches);
    assert |rows| == |IdsOf(rows)| == |ids|;
    assert rows == [] || Min(f.limit, MAX_SEARCH_LIMIT) == 0 ==> Window(rows, f.offset, Min(f.limit, MAX_SEARCH_LIMIT)) == [];
  }

  lemma FastPageIs(games: seq<StoredGame>, ids: seq<nat>, f: Filter)
    requires ValidStore(games) && AreStored(ids, games) && FilterOk(f) && Eligible(f)
    ensures FastPage(games, ids, f) == Ok(GameList(Window(Allowed(games, Elements(ids)), f.offset, Min(f.limit, MAX_SEARCH_LIMIT)), |ids|))
  {
    hide Allowed, ValidStore, AreStored;
    SelectedIds(games, ids);
    var rows, page := Allowed(games, Elements(ids)), Page(ids, f.limit, f.offset);
    if page == [] {
      assert ids == [] ==> rows == [];
      assert Window(rows, f.offset, Min(f.limit, MAX_SEARCH_LIMIT)) == [];
    } else {
      SelectedPage(games, ids, f.limit, f.offset);
      PageIsStored(ids, games, f.limit, f.offset);
      SlowPageIs(games, page, f.(offset := 0));
      assert Window(Page(rows, f.limit, f.offset), 0, Min(f.limit, MAX_SEARCH_LIMIT)) == Window(rows, f.offset, Min(f.limit, MAX_SEARCH_LIMIT));
    }
  }

  /**
   * For every eligible filter, a zero limit, a limit over 500 and an offset past the end included, the fast path answers what the
   * slow path answers, exactly unless the offset does not fit SQLite's integers and some game reaches the position: then the slow
   * path refuses and the fast path returns an empty page.
   */
  lemma PathsAgree(games: seq<StoredGame>, ids: seq<nat>, f: Filter)
    requires ValidStore(games) && AreStored(ids, games) && FilterOk(f) && Eligible(f)
    ensures FastPage(games, ids, f) == StorePage(games, ids, f) <==> f.offset <= SQLITE_MAX || ids == []
  {
    hide Allowed, ValidStore, AreStored, Page, Matching;
    FastPageIs(games, ids, f);
    if f.offset <= SQLITE_MAX {
      SlowPageIs(games, ids, f);
    } else if ids == [] {
      assert FastPage(games, ids, f) == Ok(GameList([], 0));
    }
  }

  lemma VisitorsAreStored(rules: Rules, games: seq<StoredGame>, hash: nat)
    requires ValidStore(games)
    ensures AreStored(VisitIds(rules, games, hash), games)
  {
    hide ReachesBy, ValidStore, VisitIds;
    VisitIdsAre(rules, games, hash);
  }

  /** The page of all games that reach the position, but for offsets beyond SQLite's integers on the fast path. */
  ghost function PositionPage(rules: Rules, games: seq<StoredGame>, hash: nat, f: Filter): Result<GameList> {
    var ids := VisitIds(rules, games, hash);
    if Eligible(f) && f.offset > SQLITE_MAX && ids != [] then Ok(GameList([], |ids|)) else StorePage(games, ids, f)
  }

  // What a page says.

  /** Exactly the stored games that reach the position and match, by ascending id. */
  ghost predicate AreFound(rows: seq<StoredGame>, rules: Rules, games: seq<StoredGame>, hash: nat, matches: StoredGame -> bool) {
    && IdsRise(rows)
    && (forall g :: g in rows <==> g in games && Visits(rules, g, hash) && matches(g))
  }

  /** Their number, and the slice of at most 500 of them from the offset on, in the order asked for. */
  ghost predicate IsPage(page: GameList, rules: Rules, games: seq<StoredGame>, hash: nat, f: Filter) {
    && page.total == |set g | g in games && Visits(rules, g, hash) && f.matches(g)|
    && exists rows :: AreFound(rows, rules, games, hash, f.matches)
                      && IsSlice(page.games, if f.byId then rows else (f.order)(rows), f.offset, if f.limit < 500 then f.limit else 500)
  }

  predicate IdsRise(rows: seq<StoredGame>) {
    forall i, j :: 0 <= i < j < |rows| ==> rows[i].id < rows[j].id
  }

  lemma {:induction false} MatchingAscends(games: seq<StoredGame>, matches: StoredGame -> bool)
    requires IdsRise(games)
    ensures IdsRise(Matching(games, matches))
  {
    if games != [] {
      var front, last := games[..|games| - 1], games[|games| - 1];
      MatchingAscends(front, matches);
      MatchingAre(front, matches);
      var rows := Matching(front, matches);
      forall i | 0 <= i < |rows|
        ensures rows[i].id < last.id
      {
        assert rows[i] in rows;
        var k :| 0 <= k < |front| && front[k] == rows[i];
        assert games[k] == rows[i];
      }
    }
  }

  lemma {:induction false} AscendingCount(rows: seq<StoredGame>)
    requires IdsRise(rows)
    ensures |Elements(rows)| == |rows|
  {
    if rows != [] {
      var front, last := rows[..|rows| - 1], rows[|rows| - 1];
      AscendingCount(front);
      assert rows == front + [last];
      assert Elements(rows) == Elements(front) + {last};
      assert forall i :: 0 <= i < |front| ==> front[i] == rows[i] && rows[i].id < last.id;
    }
  }

  /** What the store selects by the visitors' ids. */
  lemma SelectedAreFound(rules: Rules, games: seq<StoredGame>, hash: nat, matches: StoredGame -> bool)
    requires ValidStore(games)
    ensures AreFound(Matching(Allowed(games, Elements(VisitIds(rules, games, hash))), matches), rules, games, hash, matches)
  {
    hide ReachesBy, VisitIds, Allowed, Matching;
    var ids := VisitIds(rules, games, hash);
    var part := Allowed(games, Elements(ids));
    AllowedAre(games, Elements(ids));
    MatchingAscends(part, matches);
    MatchingAre(part, matches);
    VisitIdsAre(rules, games, hash);
    forall g | g in games
      ensures g.id in ids <==> Visits(rules, g, hash)
    {
      assert g.id in ids <==> VisitorIn(rules, games, hash, g.id);
      if h :| h in games && h.id == g.id && Visits(rules, h, hash) {
        SameId(games, g, h);
      }
    }
  }

  lemma FoundCount(rows: seq<StoredGame>, rules: Rules, games: seq<StoredGame>, hash: nat, matches: StoredGame -> bool)
    requires AreFound(rows, rules, games, hash, matches)
    ensures |rows| == |set g | g in games && Visits(rules, g, hash) && matches(g)|
  {
    hide ReachesBy;
    AscendingCount(rows);
    assert Elements(rows) == set g | g in games && Visits(rules, g, hash) && matches(g);
  }

  lemma WindowIsSlice(s: seq<StoredGame>, offset: nat, length: nat)
    ensures IsSlice(Window(s, offset, length), s, offset, length)
  {
  }

  lemma OrderedLength(f: Filter, rows: seq<StoredGame>)
    requires FilterOk(f)
    ensures |Ordered(f, rows)| == |rows|
  {
    if !f.byId {
      assert multiset((f.order)(rows)) == multiset(rows);
      assert |multiset((f.order)(rows))| == |multiset(rows)|;
    }
  }

  /** What find_games answers is the page of what was found; only the slow path refuses, and only an offset SQLite cannot take. */
  lemma PageMeans(rules: Rules, games: seq<StoredGame>, hash: nat, f: Filter)
    requires ValidStore(games) && FilterOk(f)
    ensures
      var r := PositionPage(rules, games, hash, f);
      && (r.Err? <==> (f.hasMetadata || !f.byId) && f.offset > SQLITE_MAX && exists g :: g in games && Visits(rules, g, hash))
      && (r.Ok? ==> IsPage(r.value, rules, games, hash, f))
  {
    hide ReachesBy, VisitIds, Allowed, Matching, ValidStore, Window, AreFound, FilterOk, Ordered;
    var ids := VisitIds(rules, games, hash);
    var rows := Matching(Allowed(games, Elements(ids)), f.matches);
    SelectedAreFound(rules, games, hash, f.matches);
    FoundCount(rows, rules, games, hash, f.matches);
    OrderedLength(f, rows);
    WindowIsSlice(Ordered(f, rows), f.offset, Min(f.limit, MAX_SEARCH_LIMIT));
    assert Ordered(f, rows) == if f.byId then rows else (f.order)(rows) by { OrderedIs(f, rows); }
    VisitIdsAre(rules, games, hash);
    if ids != [] {
      assert VisitorIn(rules, games, hash, ids[0]);
    } else {
      NobodyVisits(rules, games, hash);
      assert (set g | g in games && Visits(rules, g, hash) && f.matches(g)) == {};
    }
    if g :| g in games && Visits(rules, g, hash) {
      assert VisitorIn(rules, games, hash, g.id);
    }
    if Eligible(f) && f.offset > SQLITE_MAX && ids != [] {
      FarPage(rules, games, hash, f);
    }
  }

  lemma OrderedIs(f: Filter, rows: seq<StoredGame>)
    ensures Ordered(f, rows) == if f.byId then rows else (f.order)(rows)
  {
  }

  lemma NobodyVisits(rules: Rules, games: seq<StoredGame>, hash: nat)
    requires ValidStore(games) && VisitIds(rules, games, hash) == []
    ensures forall g :: g in games ==> !Visits(rules, g, hash)
  {
    hide ReachesBy, ValidStore, VisitIds;
    VisitIdsAre(rules, games, hash);
    forall g | g in games
      ensures !Visits(rules, g, hash)
    {
      assert !VisitorIn(rules, games, hash, g.id);
    }
  }

  lemma FarPage(rules: Rules, games: seq<StoredGame>, hash: nat, f: Filter)
    requires ValidStore(games) && FilterOk(f) && Eligible(f) && f.offset > SQLITE_MAX
    ensures
      var ids := VisitIds(rules, games, hash);
      var rows := Matching(Allowed(games, Elements(ids)), f.matches);
      |rows| == |ids| && |rows| <= f.offset
  {
    hide VisitIds, AreStored;
    var ids := VisitIds(rules, games, hash);
    VisitorsAreStored(rules, games, hash);
    SelectedIds(games, ids);
    var part := Allowed(games, Elements(ids));
    AllMatch(part, f.matches);
    assert |part| == |IdsOf(part)| == |ids|;
    AllowedAre(games, Elements(ids));
    StoreIsBounded(part);
  }

  /** find_games with a position. */
  method FindGames(rules: Rules, games: seq<StoredGame>, postings: PositionPostings, postingsValid: bool, hash: nat, f: Filter)
    returns (r: Result<GameList>)
    requires ValidStore(games) && FilterOk(f)
    requires postingsValid ==> UpToDate(postings, rules, games) && postings.indexedGameCount == |games|
    ensures !postingsValid ==> r == Err(IoFailure)
    ensures postingsValid ==> r == PositionPage(rules, games, hash, f)
    ensures postingsValid ==>
      (r.Err? <==> (f.hasMetadata || !f.byId) && f.offset > SQLITE_MAX && exists g :: g in games && Visits(rules, g, hash))
    ensures r.Ok? ==> IsPage(r.value, rules, games, hash, f)
  {
    hide Acceptable, IndexesStore, ValidStore, IndexOf, GameIdsAnswer, ReachesBy, Page, StorePage, AreStored, VisitCount, Lookup, Directory, HashAfter, IsPage;
    PageMeans(rules, games, hash, f);
    if !postingsValid {
      return Err(IoFailure);
    }
    if |games| != postings.indexedGameCount {
      return Err(IoFailure);
    }
    ghost var all := VisitIds(rules, games, hash);
    VisitorsAreStored(rules, games, hash);
    GameIdsMean(postings.artifact.value, rules, games, hash);
    if Eligible(f) {
      SummaryMeans(postings.artifact.value, rules, games, hash);
      FastAnswer(games, all, f);
      var summary := SummaryFor(postings.artifact.value, postings.index, hash);
      if summary.value.None? {
        return Ok(GameList([], 0));
      }
      var ids := postings.DistinctGames(hash, f.limit, f.offset);
      match ids {
        case Err(e) => return Err(e);
        case Ok(list) =>
          var page := StorePage(games, list, f.(offset := 0));
          match page {
            case Err(e) => return Err(e);
            case Ok(found) => return Ok(found.(total := summary.value.value.games));
          }
      }
    }
    WholePage(all);
    var ids := postings.DistinctGames(hash, 0, 0);
    match ids {
      case Err(e) => return Err(e);
      case Ok(list) => return StorePage(games, list, f);
    }
  }

  lemma FastAnswer(games: seq<StoredGame>, ids: seq<nat>, f: Filter)
    requires ValidStore(games) && AreStored(ids, games) && FilterOk(f) && Eligible(f)
    ensures FastPage(games, ids, f) == if f.offset > SQLITE_MAX && ids != [] then Ok(GameList([], |ids|)) else StorePage(games, ids, f)
  {
    hide Allowed, ValidStore, AreStored, Page, Matching;
    PathsAgree(games, ids, f);
    if f.offset > SQLITE_MAX && ids != [] {
      FastPageIs(games, ids, f);
      TooFar(games, ids, f);
    }
  }

  /** No list of stored games is that long. */
  lemma TooFar(games: seq<StoredGame>, ids: seq<nat>, f: Filter)
    requires ValidStore(games) && AreStored(ids, games) && f.offset > SQLITE_MAX
    ensures Window(Allowed(games, Elements(ids)), f.offset, Min(f.limit, MAX_SEARCH_LIMIT)) == []
  {
    AllowedAre(games, Elements(ids));
    StoreIsBounded(Allowed(games, Elements(ids)));
  }
}
