/**
 * Rows by id: the writer's caches of player, event and tag ids stay true to the connection's view through commits, rollbacks and
 * statements that fail, so that a game row's ids always name what the game names.
 */
module NameCaches {
  import opened Words
  import opened GameIdentity

  datatype Kind = Player | Event | Tag

  datatype NameRow = NameRow(id: nat, name: string)

  /** A game row: ids instead of names; the other columns are the game's own. */
  datatype GameRow = GameRow(id: nat, white: nat, black: nat, event: Option<nat>, game: Game)

  datatype TagRow = TagRow(game: nat, tag: nat, value: string)

  datatype Database = Database(players: seq<NameRow>, events: seq<NameRow>, tags: seq<NameRow>, games: seq<GameRow>, gameTags: seq<TagRow>)

  function Table(db: Database, kind: Kind): seq<NameRow> {
    match kind case Player => db.players case Event => db.events case Tag => db.tags
  }

  function WithTable(db: Database, kind: Kind, rows: seq<NameRow>): Database {
    match kind case Player => db.(players := rows) case Event => db.(events := rows) case Tag => db.(tags := rows)
  }

  /** The primary key and the UNIQUE name. */
  predicate NamesOk(rows: seq<NameRow>) {
    forall i, j :: 0 <= i < j < |rows| ==> rows[i].id < rows[j].id && rows[i].name != rows[j].name
  }

  /** The foreign keys hold, and they name what the game names. */
  predicate RowNamed(db: Database, r: GameRow) {
    && NameRow(r.white, r.game.white) in db.players && NameRow(r.black, r.game.black) in db.players
    && (r.event.Some? <==> r.game.event.Some?)
    && (r.event.Some? ==> NameRow(r.event.value, r.game.event.value) in db.events)
  }

  predicate TagNamed(db: Database, t: TagRow) {
    exists i :: 0 <= i < |db.tags| && db.tags[i].id == t.tag
  }

  lemma TagStillNamed(before: Database, after: Database, t: TagRow)
    requires before.tags <= after.tags && TagNamed(before, t)
    ensures TagNamed(after, t)
  {
    var i :| 0 <= i < |before.tags| && before.tags[i].id == t.tag;
    assert after.tags[i].id == t.tag;
  }

  /** Ascending row ids, and game_tag's reference to a game. */
  ghost predicate GamesOk(games: seq<GameRow>, gameTags: seq<TagRow>) {
    && (forall i, j :: 0 <= i < j < |games| ==> games[i].id < games[j].id)
    && (forall t :: t in gameTags ==> exists i :: 0 <= i < |games| && games[i].id == t.game)
  }

  ghost predicate DbOk(db: Database) {
    && GamesOk(db.games, db.gameTags)
    && NamesOk(db.players) && NamesOk(db.events) && NamesOk(db.tags)
    && (forall i :: 0 <= i < |db.games| ==> RowNamed(db, db.games[i]))
    && (forall i :: 0 <= i < |db.gameTags| ==> TagNamed(db, db.gameTags[i]))
  }

  /** Rows are only added. */
  predicate Extends(a: Database, b: Database) {
    a.players <= b.players && a.events <= b.events && a.tags <= b.tags && a.games <= b.games && a.gameTags <= b.gameTags
  }

  function NextNameId(rows: seq<NameRow>): nat {
    if rows == [] then 1 else rows[|rows| - 1].id + 1
  }

  lemma NameAdded(rows: seq<NameRow>, name: string)
    requires NamesOk(rows) && forall r :: r in rows ==> r.name != name
    ensures NamesOk(rows + [NameRow(NextNameId(rows), name)])
  {
    var more := rows + [NameRow(NextNameId(rows), name)];
    forall i | 0 <= i < |rows|
      ensures rows[i].id < NextNameId(rows) && rows[i].name != name
    {
      assert rows[i] in rows;
    }
  }

  lemma ExtendedDb(db: Database, kind: Kind, row: NameRow)
    requires DbOk(db) && NamesOk(Table(db, kind) + [row])
    ensures
      var more := WithTable(db, kind, Table(db, kind) + [row]);
      DbOk(more) && Extends(db, more) && row in Table(more, kind) && more.games == db.games && more.gameTags == db.gameTags
  {
    hide NamesOk, GamesOk;
    var more := WithTable(db, kind, Table(db, kind) + [row]);
    forall i | 0 <= i < |more.games|
      ensures RowNamed(more, more.games[i])
    {
      assert RowNamed(db, db.games[i]);
    }
    forall i | 0 <= i < |more.gameTags|
      ensures TagNamed(more, more.gameTags[i])
    {
      TagStillNamed(db, more, db.gameTags[i]);
    }
  }

  lemma {:induction false} SameNameSameId(rows: seq<NameRow>, a: NameRow, b: NameRow)
    requires NamesOk(rows) && a in rows && b in rows
    ensures a.id == b.id <==> a.name == b.name
  {
    var i :| 0 <= i < |rows| && rows[i] == a;
    var j :| 0 <= j < |rows| && rows[j] == b;
  }

  /** The conditions of the duplicate check, as the statement compares them: by id. */
  predicate SameIds(h: MoveHash, a: GameRow, b: GameRow) {
    && a.white == b.white && a.black == b.black && a.event == b.event && DateText(a.game) == DateText(b.game)
    && a.game.result == b.game.result && h(a.game.moves) == h(b.game.moves) && a.game.moves == b.game.moves
  }

  /** Comparing ids is comparing names: the statement rejects exactly the exact duplicates. */
  lemma SameIdsMeansSameGame(h: MoveHash, db: Database, a: GameRow, b: GameRow)
    requires DbOk(db) && RowNamed(db, a) && RowNamed(db, b)
    ensures SameIds(h, a, b) <==> SameGame(h, a.game, b.game)
  {
    hide NamesOk;
    SameNameSameId(db.players, NameRow(a.white, a.game.white), NameRow(b.white, b.game.white));
    SameNameSameId(db.players, NameRow(a.black, a.game.black), NameRow(b.black, b.game.black));
    if a.event.Some? && b.event.Some? {
      SameNameSameId(db.events, NameRow(a.event.value, a.game.event.value), NameRow(b.event.value, b.game.event.value));
    }
  }

  function Games(db: Database): (gs: seq<Game>)
    ensures |gs| == |db.games|
  {
    seq(|db.games|, i requires 0 <= i < |db.games| => db.games[i].game)
  }

  predicate IdDuplicate(h: MoveHash, db: Database, r: GameRow) {
    exists i :: 0 <= i < |db.games| && SameIds(h, db.games[i], r)
  }

  lemma DuplicateByIds(h: MoveHash, db: Database, r: GameRow)
    requires DbOk(db) && RowNamed(db, r)
    ensures IdDuplicate(h, db, r) <==> Contains(h, Games(db), r.game)
  {
    hide NamesOk, SameIds, SameGame, RowNamed;
    forall i | 0 <= i < |db.games|
      ensures SameIds(h, db.games[i], r) <==> SameGame(h, Games(db)[i], r.game)
    {
      SameIdsMeansSameGame(h, db, db.games[i], r);
    }
    if i :| 0 <= i < |db.games| && SameIds(h, db.games[i], r) {
      assert SameGame(h, Games(db)[i], r.game);
    }
  }

  function NextGameId(games: seq<GameRow>): nat {
    if games == [] then 1 else games[|games| - 1].id + 1
  }

  lemma GameIdIsNew(games: seq<GameRow>, gameTags: seq<TagRow>, r: GameRow)
    requires GamesOk(games, gameTags) && r.id == NextGameId(games)
    ensures GamesOk(games + [r], gameTags) && forall t :: t in gameTags ==> t.game != r.id
  {
    var more := games + [r];
    forall t | t in gameTags
      ensures t.game != r.id && exists i :: 0 <= i < |more| && more[i].id == t.game
    {
      var i :| 0 <= i < |games| && games[i].id == t.game;
      assert more[i].id == t.game;
    }
  }

  lemma GameAdded(db: Database, r: GameRow)
    requires DbOk(db) && RowNamed(db, r) && r.id == NextGameId(db.games)
    ensures DbOk(db.(games := db.games + [r])) && Extends(db, db.(games := db.games + [r]))
    ensures forall t :: t in db.gameTags ==> t.game != r.id
  {
    hide NamesOk, GamesOk, NextGameId;
    GameIdIsNew(db.games, db.gameTags, r);
    var more := db.(games := db.games + [r]);
    forall i | 0 <= i < |more.games|
      ensures RowNamed(more, more.games[i])
    {
      assert more.games[i] == if i < |db.games| then db.games[i] else r;
      assert RowNamed(db, more.games[i]);
    }
    forall i | 0 <= i < |more.gameTags|
      ensures TagNamed(more, more.gameTags[i])
    {
      TagStillNamed(db, more, db.gameTags[i]);
    }
  }

  lemma TagAdded(db: Database, t: TagRow, name: string)
    requires DbOk(db) && NameRow(t.tag, name) in db.tags && exists i :: 0 <= i < |db.games| && db.games[i].id == t.game
    ensures DbOk(db.(gameTags := db.gameTags + [t])) && Extends(db, db.(gameTags := db.gameTags + [t]))
  {
    hide NamesOk;
    assert GamesOk(db.games, db.gameTags + [t]);
    hide GamesOk;
    var more := db.(gameTags := db.gameTags + [t]);
    forall i | 0 <= i < |more.games|
      ensures RowNamed(more, more.games[i])
    {
      assert RowNamed(db, db.games[i]);
    }
    forall i | 0 <= i < |more.gameTags|
      ensures TagNamed(more, more.gameTags[i])
    {
      if i < |db.gameTags| {
        TagStillNamed(db, more, db.gameTags[i]);
      } else {
        var k :| 0 <= k < |db.tags| && db.tags[k] == NameRow(t.tag, name);
        assert more.tags[k].id == t.tag;
      }
    }
  }

  /** One SQLite connection; any statement may fail. */
  class Connection {
    var committed: Database
    var view: Database
    var inTransaction: bool

    ghost predicate Valid()
      reads this
    {
      DbOk(committed) && DbOk(view) && (!inTransaction ==> view == committed)
    }

    constructor (db: Database)
      requires DbOk(db)
      ensures Valid() && committed == db && view == db && !inTransaction
    {
      committed, view, inTransaction := db, db, false;
    }

    method Begin() returns (ok: bool)
      requires Valid()
      modifies this
      ensures Valid() && view == old(view) && committed == old(committed)
      ensures ok ==> !old(inTransaction) && inTransaction
      ensures !ok ==> inTransaction == old(inTransaction)
    {
      ok := *;
      ok := ok && !inTransaction;
      inTransaction := inTransaction || ok;
    }

    method Commit() returns (ok: bool)
      requires Valid()
      modifies this
      ensures Valid() && view == old(view)
      ensures ok ==> old(inTransaction) && !inTransaction && committed == view
      ensures !ok ==> inTransaction == old(inTransaction) && committed == old(committed)
    {
      ok := *;
      ok := ok && inTransaction;
      if ok {
        committed, inTransaction := view, false;
      }
    }

    method Rollback()
      requires Valid()
      modifies this
      ensures Valid() && committed == old(committed)
      ensures (view == committed && !inTransaction) || (view == old(view) && inTransaction == old(inTransaction))
    {
      var ok: bool := *;
      if ok {
        view, inTransaction := committed, false;
      }
    }

    /** SELECT id ... WHERE name = ?; a failed step looks like no row. */
    method SelectName(kind: Kind, name: string) returns (found: Option<nat>, ghost failed: bool)
      requires Valid()
      ensures found.Some? ==> NameRow(found.value, name) in Table(view, kind)
      ensures !failed && found.None? ==> forall r :: r in Table(view, kind) ==> r.name != name
    {
      var rows := Table(view, kind);
      var stepFailed: bool := *;
      if stepFailed {
        return None, true;
      }
      for i := 0 to |rows|
        invariant forall k :: 0 <= k < i ==> rows[k].name != name
      {
        if rows[i].name == name {
          return Some(rows[i].id), false;
        }
      }
      return None, false;
    }

    /** INSERT of a name: refused when the name is there. */
    method InsertName(kind: Kind, name: string) returns (id: Option<nat>, ghost failed: bool)
      requires Valid() && inTransaction
      modifies `view
      ensures Valid() && Extends(old(view), view) && view.games == old(view.games) && view.gameTags == old(view.gameTags)
      ensures id.Some? ==> NameRow(id.value, name) in Table(view, kind)
      ensures id.None? ==> view == old(view)
      ensures !failed && (forall r :: r in Table(old(view), kind) ==> r.name != name) ==> id.Some?
    {
      hide NamesOk, RowNamed, TagNamed, GamesOk;
      var stepFailed: bool := *;
      failed := stepFailed;
      var rows := Table(view, kind);
      if stepFailed || exists i :: 0 <= i < |rows| && rows[i].name == name {
        return None, failed;
      }
      assert NamesOk(rows);
      NameAdded(rows, name);
      ExtendedDb(view, kind, NameRow(NextNameId(rows), name));
      view := WithTable(view, kind, rows + [NameRow(NextNameId(rows), name)]);
      return Some(NextNameId(rows)), failed;
    }
  }

  class NameCachingWriter {
    const conn: Connection
    const h: MoveHash
    var ids: map<(Kind, string), nat>  // player_id_cache_, event_id_cache_ and tag_id_cache_

    /** Every cached id names a row with that name in the connection's view. */
    ghost predicate Coherent()
      reads this, conn
    {
      forall key :: key in ids ==> NameRow(ids[key], key.1) in Table(conn.view, key.0)
    }

    ghost predicate Valid()
      reads this, conn
    {
      conn.Valid() && Coherent()
    }

    constructor (conn: Connection, h: MoveHash)
      requires conn.Valid()
      ensures Valid() && this.conn == conn && this.h == h && ids == map[]
    {
      this.conn, this.h, ids := conn, h, map[];
    }

    method ClearCaches()
      modifies `ids
      ensures ids == map[]
    {
      ids := map[];
    }

    /** find_or_insert_player, find_or_insert_event and the tag lookup; without a failed statement it finds or inserts. */
    method FindOrInsert(kind: Kind, name: string) returns (r: Result<nat>, ghost failed: bool)
      requires Valid() && conn.inTransaction
      modifies `ids, conn`view
      ensures Valid() && Extends(old(conn.view), conn.view)
      ensures conn.view.games == old(conn.view.games) && conn.view.gameTags == old(conn.view.gameTags)
      ensures r.Ok? ==> NameRow(r.value, name) in Table(conn.view, kind)
      ensures r.Err? ==> r.error == IoFailure && failed
    {
      hide DbOk;
      if (kind, name) in ids {
        return Ok(ids[(kind, name)]), false;
      }
      var prepared: bool := *;
      if !prepared {
        return Err(IoFailure), true;
      }
      var found;
      found, failed := conn.SelectName(kind, name);
      if found.Some? {
        ids := ids[(kind, name) := found.value];
        return Ok(found.value), failed;
      }
      var id;
      ghost var insertFailed;
      id, insertFailed := conn.InsertName(kind, name);
      failed := failed || insertFailed;
      StillCoherent(ids, old(conn.view), conn.view);
      if id.None? {
        return Err(IoFailure), failed;
      }
      ids := ids[(kind, name) := id.value];
      return Ok(id.value), failed;
    }

    method BeginTransaction() returns (ok: bool)
      requires Valid()
      modifies conn
      ensures Valid() && ids == old(ids) && conn.view == old(conn.view) && conn.committed == old(conn.committed)
      ensures ok ==> conn.inTransaction
    {
      ok := conn.Begin();
    }

    method CommitTransaction() returns (ok: bool)
      requires Valid()
      modifies conn
      ensures Valid() && ids == old(ids) && conn.view == old(conn.view)
      ensures ok ==> conn.committed == conn.view
      ensures !ok ==> conn.committed == old(conn.committed)
    {
      ok := conn.Commit();
    }

    method RollbackTransaction()
      requires Valid()
      modifies this, conn
      ensures Valid() && ids == map[] && conn.committed == old(conn.committed)
    {
      conn.Rollback();
      ClearCaches();
    }

    /** The ids of the game's players and event. */
    method ResolveNames(g: Game) returns (r: Result<GameRow>, ghost failed: bool)
      requires Valid() && conn.inTransaction
      modifies `ids, conn`view
      ensures Valid() && Extends(old(conn.view), conn.view)
      ensures conn.view.games == old(conn.view.games) && conn.view.gameTags == old(conn.view.gameTags)
      ensures r.Ok? ==> r.value.game == g && r.value.id == NextGameId(conn.view.games) && RowNamed(conn.view, r.value)
      ensures r.Err? ==> r.error == IoFailure && failed
    {
      hide DbOk, Coherent;
      var white;
      white, failed := FindOrInsert(Player, g.white);
      if white.Err? {
        return Err(IoFailure), failed;
      }
      label WhiteFound:
      var black;
      ghost var more;
      black, more := FindOrInsert(Player, g.black);
      failed := failed || more;
      if black.Err? {
        return Err(IoFailure), failed;
      }
      StillThere(old@WhiteFound(conn.view), conn.view, white.value, g.white);
      label BlackFound:
      var event: Option<nat> := None;
      if g.event.Some? {
        var found;
        found, more := FindOrInsert(Event, g.event.value);
        failed := failed || more;
        if found.Err? {
          return Err(IoFailure), failed;
        }
        event := Some(found.value);
      }
      StillThere(old@BlackFound(conn.view), conn.view, white.value, g.white);
      StillThere(old@BlackFound(conn.view), conn.view, black.value, g.black);
      return Ok(GameRow(NextGameId(conn.view.games), white.value, black.value, event, g)), failed;
    }

    /** The rows of insert and insert_raw, in their order. */
    method InsertRows(g: Game, check: bool) returns (r: Result<nat>, ghost failed: bool)
      requires Valid() && conn.inTransaction
      modifies `ids, conn`view
      ensures Valid() && Extends(old(conn.view), conn.view)
      ensures r.Ok? ==> Stored(old(conn.view), conn.view, r.value, g)
      ensures r.Ok? && check ==> !HasCopy(old(conn.view), g)
      ensures r == Err(Duplicate) ==> check && HasCopy(old(conn.view), g)
      ensures !failed ==> Decided(r, h, old(conn.view), g, check)
    {
      hide DbOk, RowNamed, Contains, HasCopy, IdDuplicate, Stored, TagsStored, Coherent, Extends, Storable, DistinctTags, NextGameId;
      CopyIs(h, conn.view, g);
      var resolved;
      resolved, failed := ResolveNames(g);
      var row: GameRow;
      match resolved {
        case Err(e) => return Err(e), failed;
        case Ok(ready) => row := ready;
      }
      DuplicateByIds(h, conn.view, row);
      assert Games(conn.view) == Games(old(conn.view));
      var stepFailed: bool := *;
      if stepFailed {
        return Err(IoFailure), true;
      }
      if check && IdDuplicate(h, conn.view, row) {
        return Err(Duplicate), failed;
      }
      ghost var named := conn.view;
      AddGame(row);
      ghost var added := conn.view;
      ExtendsThrough(old(conn.view), named, added);
      var tagged;
      ghost var more;
      tagged, more := InsertTags(row.id, g.payload.tags);
      failed := failed || more;
      ExtendsThrough(old(conn.view), added, conn.view);
      StorableMeans(g);
      if !tagged {
        return Err(IoFailure), failed;
      }
      StoredNow(old(conn.view), named, added, conn.view, row, g);
      return Ok(row.id), failed;
    }

    method AddGame(row: GameRow)
      requires Valid() && conn.inTransaction && RowNamed(conn.view, row) && row.id == NextGameId(conn.view.games)
      modifies conn`view
      ensures Valid() && Extends(old(conn.view), conn.view) && conn.view == old(conn.view).(games := old(conn.view).games + [row])
      ensures NoTagsOf(conn.view, row.id) && HasGame(conn.view, row.id)
    {
      hide DbOk, RowNamed, NextGameId;
      GameAdded(conn.view, row);
      StillCoherent(ids, conn.view, conn.view.(games := conn.view.games + [row]));
      conn.view := conn.view.(games := conn.view.games + [row]);
      assert conn.view.games[|conn.view.games| - 1] == row;
    }

    /** insert_game_tags: the primary key refuses a second tag of the same name; for a new game nothing else is refused. */
    method InsertTags(game: nat, tags: seq<(string, string)>) returns (ok: bool, ghost failed: bool)
      requires Valid() && conn.inTransaction && HasGame(conn.view, game)
      modifies `ids, conn`view
      ensures Valid() && Extends(old(conn.view), conn.view) && conn.view.games == old(conn.view.games)
      ensures ok ==> TagsStored(old(conn.view), conn.view, game, tags) && DistinctTags(tags)
      ensures !failed && NoTagsOf(old(conn.view), game) ==> (ok <==> DistinctTags(tags))
    {
      hide DbOk, DistinctTags, TagsStored, NoTagsOf;
      NoTags(conn.view, game, tags);
      failed := false;
      for k := 0 to |tags|
        invariant Valid() && conn.inTransaction && Extends(old(conn.view), conn.view) && conn.view.games == old(conn.view.games)
        invariant TagsStored(old(conn.view), conn.view, game, tags[..k]) && DistinctTags(tags[..k])
      {
        label Before:
        var tag;
        ghost var more;
        tag, more := FindOrInsert(Tag, tags[k].0);
        failed := failed || more;
        if tag.Err? {
          return false, true;
        }
        TagsKept(old(conn.view), old@Before(conn.view), conn.view, game, tags[..k]);
        TagNamesOk(conn.view);
        var stepFailed: bool := *;
        if stepFailed {
          return false, true;
        }
        if exists i :: 0 <= i < |conn.view.gameTags| && conn.view.gameTags[i].game == game && conn.view.gameTags[i].tag == tag.value {
          if NoTagsOf(old(conn.view), game) {
            RepeatedTag(old(conn.view), conn.view, game, tags, k, tag.value);
          }
          return false, failed;
        }
        var row := TagRow(game, tag.value, tags[k].1);
        TagAdded(conn.view, row, tags[k].0);
        NewTagName(old(conn.view), conn.view, game, tags, k, tag.value);
        OneMoreTag(old(conn.view), old@Before(conn.view), conn.view, game, tags, k, row);
        StillCoherent(ids, conn.view, conn.view.(gameTags := conn.view.gameTags + [row]));
        conn.view := conn.view.(gameTags := conn.view.gameTags + [row]);
      }
      assert tags[..|tags|] == tags;
      return true, failed;
    }

    /**
     * insert (check) and insert_raw: in the caller's transaction, or in one of their own; any failure clears the caches. If no statement
     * fails, the game is stored exactly when its tag names are distinct and, for insert, no exact duplicate is there.
     */
    method Insert(g: Game, check: bool) returns (r: Result<nat>, ghost failed: bool)
      requires Valid()
      modifies this, conn
      ensures Valid()
      ensures r.Ok? ==> Stored(old(conn.view), conn.view, r.value, g) && conn.inTransaction == old(conn.inTransaction)
      ensures r.Ok? && check ==> !HasCopy(old(conn.view), g)
      ensures r == Err(Duplicate) ==> check && HasCopy(old(conn.view), g)
      ensures conn.committed == if r.Ok? && !old(conn.inTransaction) then conn.view else old(conn.committed)
      ensures !failed ==> Decided(r, h, old(conn.view), g, check)
    {
      hide DbOk, HasCopy, Stored, Decided;
      var local := !conn.inTransaction;
      if local {
        var began := conn.Begin();
        if !began {
          return Err(IoFailure), true;
        }
      }
      r, failed := InsertRows(g, check);
      if r.Err? {
        ClearCaches();
        if local {
          conn.Rollback();
        }
        return;
      }
      if local {
        var ok := conn.Commit();
        if !ok {
          ClearCaches();
          conn.Rollback();
          return Err(IoFailure), true;
        }
      }
    }
  }

  /** Some game row agrees in all six fields, an absent date being an empty one. */
  predicate HasCopy(db: Database, g: Game) {
    exists i :: 0 <= i < |db.games| && (
      && db.games[i].game.white == g.white && db.games[i].game.black == g.black && db.games[i].game.event == g.event
      && db.games[i].game.result == g.result
      && (if db.games[i].game.date.Some? then db.games[i].game.date.value else "") == (if g.date.Some? then g.date.value else "")
      && db.games[i].game.moves == g.moves)
  }

  lemma CopyIs(h: MoveHash, db: Database, g: Game)
    ensures HasCopy(db, g) <==> Contains(h, Games(db), g)
  {
    forall i | 0 <= i < |db.games|
      ensures Games(db)[i] == db.games[i].game
    {
    }
  }

  /** What an insert into the database without a failed statement comes to. */
  ghost predicate Decided(r: Result<nat>, h: MoveHash, db: Database, g: Game, check: bool) {
    if check && HasCopy(db, g) then r == Err(Duplicate)
    else if Storable(g) then r.Ok?
    else r == Err(IoFailure)
  }

  lemma StorableMeans(g: Game)
    ensures Storable(g) <==> DistinctTags(g.payload.tags)
  {
  }

  predicate HasGame(db: Database, game: nat) {
    exists i :: 0 <= i < |db.games| && db.games[i].id == game
  }

  ghost predicate NoTagsOf(db: Database, game: nat) {
    forall t :: t in db.gameTags ==> t.game != game
  }

  /** Without other tag rows of the game, a tag that the primary key refuses has the name of an earlier one. */
  lemma RepeatedTag(start: Database, db: Database, game: nat, tags: seq<(string, string)>, k: nat, id: nat)
    requires k < |tags| && NamesOk(db.tags) && TagsStored(start, db, game, tags[..k]) && NoTagsOf(start, game)
    requires NameRow(id, tags[k].0) in db.tags
    requires exists i :: 0 <= i < |db.gameTags| && db.gameTags[i].game == game && db.gameTags[i].tag == id
    ensures !DistinctTags(tags)
  {
    hide NamesOk;
    var i :| 0 <= i < |db.gameTags| && db.gameTags[i].game == game && db.gameTags[i].tag == id;
    assert forall t :: t in db.gameTags[..|start.gameTags|] ==> t.game != game;
    assert i >= |start.gameTags|;
    var n := i - |start.gameTags|;
    assert TagIs(db, |start.gameTags| + n, game, tags[..k][n]);
    SameNameSameId(db.tags, NameRow(id, tags[n].0), NameRow(id, tags[k].0));
  }

  lemma StillCoherent(ids: map<(Kind, string), nat>, before: Database, after: Database)
    requires Extends(before, after) && forall key :: key in ids ==> NameRow(ids[key], key.1) in Table(before, key.0)
    ensures forall key :: key in ids ==> NameRow(ids[key], key.1) in Table(after, key.0)
  {
    forall key | key in ids
      ensures NameRow(ids[key], key.1) in Table(after, key.0)
    {
      assert Table(before, key.0) <= Table(after, key.0);
      InPrefix(Table(before, key.0), Table(after, key.0), NameRow(ids[key], key.1));
    }
  }

  lemma InPrefix(a: seq<NameRow>, b: seq<NameRow>, r: NameRow)
    requires a <= b && r in a
    ensures r in b
  {
    var i :| 0 <= i < |a| && a[i] == r;
    assert b[i] == r;
  }

  lemma StillThere(before: Database, after: Database, id: nat, name: string)
    requires Extends(before, after) && NameRow(id, name) in before.players
    ensures NameRow(id, name) in after.players
  {
    InPrefix(before.players, after.players, NameRow(id, name));
  }

  predicate TagIs(db: Database, at: nat, game: nat, tag: (string, string)) {
    && at < |db.gameTags| && db.gameTags[at].game == game && db.gameTags[at].value == tag.1
    && NameRow(db.gameTags[at].tag, tag.0) in db.tags
  }

  /** The tag rows added for a game: one per tag, in order, each under its own name. */
  ghost predicate TagsStored(before: Database, after: Database, game: nat, tags: seq<(string, string)>) {
    && |after.gameTags| == |before.gameTags| + |tags|
    && before.gameTags <= after.gameTags
    && forall k :: 0 <= k < |tags| ==> TagIs(after, |before.gameTags| + k, game, tags[k])
  }

  lemma OneMoreTag(start: Database, before: Database, now: Database, game: nat, tags: seq<(string, string)>, k: nat, row: TagRow)
    requires k < |tags| && TagsStored(start, before, game, tags[..k])
    requires Extends(before, now) && now.gameTags == before.gameTags
    requires row.game == game && row.value == tags[k].1 && NameRow(row.tag, tags[k].0) in now.tags
    ensures TagsStored(start, now.(gameTags := now.gameTags + [row]), game, tags[..k + 1])
  {
    var after := now.(gameTags := now.gameTags + [row]);
    var upto := tags[..k + 1];
    forall i | 0 <= i < |upto|
      ensures TagIs(after, |start.gameTags| + i, game, upto[i])
    {
      if i < k {
        assert upto[i] == tags[..k][i];
        assert TagIs(before, |start.gameTags| + i, game, tags[..k][i]);
        InPrefix(before.tags, now.tags, NameRow(before.gameTags[|start.gameTags| + i].tag, tags[i].0));
      }
    }
  }

  /** A tag that the primary key lets in has a name of its own. */
  lemma NewTagName(start: Database, db: Database, game: nat, tags: seq<(string, string)>, k: nat, id: nat)
    requires k < |tags| && NamesOk(db.tags) && TagsStored(start, db, game, tags[..k]) && DistinctTags(tags[..k])
    requires NameRow(id, tags[k].0) in db.tags
    requires forall i :: 0 <= i < |db.gameTags| ==> !(db.gameTags[i].game == game && db.gameTags[i].tag == id)
    ensures DistinctTags(tags[..k + 1])
  {
    hide NamesOk;
    forall i | 0 <= i < k
      ensures tags[i].0 != tags[k].0
    {
      assert TagIs(db, |start.gameTags| + i, game, tags[..k][i]);
      var t := db.gameTags[|start.gameTags| + i];
      SameNameSameId(db.tags, NameRow(t.tag, tags[i].0), NameRow(id, tags[k].0));
    }
    var front, upto := tags[..k], tags[..k + 1];
    assert upto == front + [tags[k]];
    forall i, j | 0 <= i < j < |upto|
      ensures upto[i].0 != upto[j].0
    {
      assert j < k ==> front[i].0 != front[j].0;
      assert front[i] == tags[i];
    }
  }

  lemma NoTags(db: Database, game: nat, tags: seq<(string, string)>)
    ensures TagsStored(db, db, game, tags[..0]) && DistinctTags(tags[..0])
  {
  }

  lemma TagNamesOk(db: Database)
    requires DbOk(db)
    ensures NamesOk(db.tags)
  {
  }

  lemma TagsKept(start: Database, before: Database, now: Database, game: nat, tags: seq<(string, string)>)
    requires TagsStored(start, before, game, tags) && Extends(before, now) && now.gameTags == before.gameTags
    ensures TagsStored(start, now, game, tags)
  {
    forall i | 0 <= i < |tags|
      ensures TagIs(now, |start.gameTags| + i, game, tags[i])
    {
      assert TagIs(before, |start.gameTags| + i, game, tags[i]);
      InPrefix(before.tags, now.tags, NameRow(before.gameTags[|start.gameTags| + i].tag, tags[i].0));
    }
  }

  lemma ExtendsThrough(a: Database, b: Database, c: Database)
    requires Extends(a, b) && Extends(b, c)
    ensures Extends(a, c)
  {
  }

  lemma StoredNow(before: Database, named: Database, added: Database, after: Database, row: GameRow, g: Game)
    requires named.games == before.games && named.gameTags == before.gameTags && row.game == g && row.id == NextGameId(named.games)
    requires RowNamed(named, row) && added == named.(games := named.games + [row])
    requires Extends(added, after) && after.games == added.games && TagsStored(added, after, row.id, g.payload.tags)
    requires DistinctTags(g.payload.tags)
    ensures Stored(before, after, row.id, g)
  {
    assert forall k :: 0 <= k < |g.payload.tags| ==> TagIs(after, |before.gameTags| + k, row.id, g.payload.tags[k]);
    InPrefix(named.players, after.players, NameRow(row.white, g.white));
    InPrefix(named.players, after.players, NameRow(row.black, g.black));
    if g.event.Some? {
      InPrefix(named.events, after.events, NameRow(row.event.value, g.event.value));
    }
  }

  /** Exactly one game row more, under a new id, with its tags. */
  ghost predicate Stored(before: Database, after: Database, id: nat, g: Game) {
    && |after.games| == |before.games| + 1 && before.games <= after.games
    && id == NextGameId(before.games)
    && after.games[|before.games|].id == id && after.games[|before.games|].game == g && RowNamed(after, after.games[|before.games|])
    && TagsStored(before, after, id, g.payload.tags) && DistinctTags(g.payload.tags)
  }

  datatype Command = Begin | Commit | Rollback | Insert(g: Game, check: bool)

  /** Over any run of writer calls, with any statement failing, the caches are coherent and every game row names its names. */
  method Run(db: Database, h: MoveHash, commands: seq<Command>) returns (writer: NameCachingWriter)
    requires DbOk(db)
    ensures writer.Coherent() && DbOk(writer.conn.view) && DbOk(writer.conn.committed)
  {
    var conn := new Connection(db);
    writer := new NameCachingWriter(conn, h);
    for k := 0 to |commands|
      invariant fresh(conn) && fresh(writer) && writer.conn == conn && writer.Valid()
    {
      match commands[k] {
        case Begin => var _ := writer.BeginTransaction();
        case Commit => var _ := writer.CommitTransaction();
        case Rollback => writer.RollbackTransaction();
        case Insert(g, check) => var _, _ := writer.Insert(g, check);
      }
    }
  }
}
