/** The game table, its writer, and the reconciliation of unchecked inserts. */
module GameWriter {
  import opened Words
  import opened GameIdentity

  datatype Row = Row(id: nat, game: Game, collision: nat)

  function Games(table: seq<Row>): (gs: seq<Game>)
    ensures |gs| == |table|
  {
    seq(|table|, i requires 0 <= i < |table| => table[i].game)
  }

  predicate IdsAscend(table: seq<Row>) {
    forall i, j :: 0 <= i < j < |table| ==> table[i].id < table[j].id
  }

  /** Within each identity the collision numbers are 0, 1, 2, ... in id order. */
  predicate CollisionsOk(h: MoveHash, table: seq<Row>) {
    forall i :: 0 <= i < |table| ==> table[i].collision == IdentityCount(h, Games(table)[..i], table[i].game)
  }

  /** A reconciled table. */
  predicate TableOk(h: MoveHash, table: seq<Row>) {
    IdsAscend(table) && DuplicateFree(h, Games(table)) && CollisionsOk(h, table)
  }

  /** The unique identity index can exist. */
  predicate IndexFits(h: MoveHash, table: seq<Row>) {
    forall i, j :: 0 <= i < j < |table| ==> !(SameIdentity(h, table[i].game, table[j].game) && table[i].collision == table[j].collision)
  }

  /** The index refuses a row with the game's identity and collision number 0. */
  predicate Clashes(h: MoveHash, table: seq<Row>, g: Game) {
    exists i :: 0 <= i < |table| && SameIdentity(h, table[i].game, g) && table[i].collision == 0
  }

  /** In a reconciled table that is so exactly for games whose identity is stored: unchecked inserts need the index dropped. */
  lemma ClashesWhenStored(h: MoveHash, table: seq<Row>, g: Game)
    requires CollisionsOk(h, table)
    ensures Clashes(h, table, g) <==> IdentityCount(h, Games(table), g) > 0
  {
    hide SameIdentity;
    if Clashes(h, table, g) {
      var i :| 0 <= i < |table| && SameIdentity(h, table[i].game, g) && table[i].collision == 0;
      CountGrows(h, Games(table), i, g);
    }
    if IdentityCount(h, Games(table), g) > 0 {
      var i := FirstOfIdentity(h, Games(table), g);
      CountOfSame(h, Games(table)[..i], table[i].game, g);
    }
  }

  lemma {:induction false} FirstOfIdentity(h: MoveHash, gs: seq<Game>, g: Game) returns (i: nat)
    requires IdentityCount(h, gs, g) > 0
    ensures i < |gs| && SameIdentity(h, gs[i], g) && IdentityCount(h, gs[..i], g) == 0
  {
    hide SameIdentity;
    var n := |gs| - 1;
    if IdentityCount(h, gs[..n], g) > 0 {
      i := FirstOfIdentity(h, gs[..n], g);
      assert gs[..n][..i] == gs[..i];
    } else {
      i := n;
    }
  }

  lemma IndexFitsReconciled(h: MoveHash, table: seq<Row>)
    requires CollisionsOk(h, table)
    ensures IndexFits(h, table)
  {
    hide SameIdentity, IdentityCount;
    forall i, j | 0 <= i < j < |table| && SameIdentity(h, table[i].game, table[j].game)
      ensures table[i].collision < table[j].collision
    {
      var gs := Games(table);
      CountGrows(h, gs[..j], i, table[j].game);
      assert gs[..j][..i] == gs[..i];
      CountOfSame(h, gs[..i], table[i].game, table[j].game);
    }
  }

  /** SQLite's next row id. */
  function NextId(table: seq<Row>): nat {
    if table == [] then 1 else table[|table| - 1].id + 1
  }

  /** COALESCE(MAX(identity_collision) + 1, 0) over the rows with the game's identity. */
  function NextCollision(h: MoveHash, table: seq<Row>, g: Game): nat {
    if table == [] then 0
    else
      var before, last := NextCollision(h, table[..|table| - 1], g), table[|table| - 1];
      if SameIdentity(h, last.game, g) && last.collision + 1 > before then last.collision + 1 else before
  }

  /** In a reconciled table the next collision number is the number of rows with the identity. */
  lemma {:induction false} NextCollisionCounts(h: MoveHash, table: seq<Row>, g: Game)
    requires CollisionsOk(h, table)
    ensures NextCollision(h, table, g) == IdentityCount(h, Games(table), g)
  {
    if table != [] {
      hide SameIdentity;
      var n := |table| - 1;
      var front, last := table[..n], table[n];
      assert Games(table)[..n] == Games(front);
      forall i | 0 <= i < n
        ensures front[i].collision == IdentityCount(h, Games(front)[..i], front[i].game)
      {
        assert Games(front)[..i] == Games(table)[..i];
      }
      NextCollisionCounts(h, front, g);
      if SameIdentity(h, last.game, g) {
        CountOfSame(h, Games(front), last.game, g);
      }
    }
  }

  lemma AppendedRow(h: MoveHash, table: seq<Row>, g: Game, collision: nat)
    ensures Games(table + [Row(NextId(table), g, collision)]) == Games(table) + [g]
    ensures IdsAscend(table) ==> IdsAscend(table + [Row(NextId(table), g, collision)])
    ensures CollisionsOk(h, table) && collision == IdentityCount(h, Games(table), g)
      ==> CollisionsOk(h, table + [Row(NextId(table), g, collision)])
  {
    hide IdentityCount;
    var table' := table + [Row(NextId(table), g, collision)];
    assert Games(table') == Games(table) + [g];
    if CollisionsOk(h, table) && collision == IdentityCount(h, Games(table), g) {
      forall i | 0 <= i < |table'|
        ensures table'[i].collision == IdentityCount(h, Games(table')[..i], table'[i].game)
      {
        assert Games(table')[..i] == Games(table)[..i];
        assert Games(table)[..|table|] == Games(table);
      }
    }
  }

  // The reconciliation statements.

  /** Kept by the DELETE: the lowest id of its group of exact duplicates. */
  predicate LowestOfGroup(h: MoveHash, table: seq<Row>, r: Row) {
    forall i :: 0 <= i < |table| && SameGame(h, table[i].game, r.game) ==> r.id <= table[i].id
  }

  function DeleteDuplicates(h: MoveHash, table: seq<Row>, all: seq<Row>): seq<Row> {
    if table == [] then []
    else
      DeleteDuplicates(h, table[..|table| - 1], all)
      + if LowestOfGroup(h, all, table[|table| - 1]) then [table[|table| - 1]] else []
  }

  /** ROW_NUMBER() - 1 within the identity, by id. */
  function Renumbered(h: MoveHash, table: seq<Row>): (t: seq<Row>)
    ensures |t| == |table|
  {
    seq(|table|, i requires 0 <= i < |table| => Row(table[i].id, table[i].game, IdentityCount(h, Games(table)[..i], table[i].game)))
  }

  function Reconciled(h: MoveHash, table: seq<Row>): seq<Row> {
    Renumbered(h, DeleteDuplicates(h, table, table))
  }

  /** The lowest id of a group is its first row. */
  lemma LowestIsFirst(h: MoveHash, table: seq<Row>, i: nat)
    requires IdsAscend(table) && i < |table|
    ensures LowestOfGroup(h, table, table[i]) <==> !Contains(h, Games(table)[..i], table[i].game)
  {
    hide SameIdentity;
    var front := Games(table)[..i];
    if k :| 0 <= k < |front| && SameGame(h, front[k], table[i].game) {
      assert table[k].game == front[k];
    }
    if !LowestOfGroup(h, table, table[i]) {
      var k :| 0 <= k < |table| && SameGame(h, table[k].game, table[i].game) && table[k].id < table[i].id;
      assert k < i;
      assert front[k] == table[k].game;
    }
  }

  lemma {:induction false} DeletedGames(h: MoveHash, table: seq<Row>, n: nat)
    requires IdsAscend(table) && n <= |table|
    ensures Games(DeleteDuplicates(h, table[..n], table)) == Dedup(h, Games(table)[..n])
    ensures IdsAscend(DeleteDuplicates(h, table[..n], table))
    ensures forall r :: r in DeleteDuplicates(h, table[..n], table) ==> r in table[..n]
    decreases n
  {
    hide LowestOfGroup, Contains, IdsAscend;
    if n > 0 {
      DeletedGames(h, table, n - 1);
      LowestIsFirst(h, table, n - 1);
      assert table[..n][..n - 1] == table[..n - 1] && Games(table)[..n][..n - 1] == Games(table)[..n - 1];
      var before, last := DeleteDuplicates(h, table[..n - 1], table), table[n - 1];
      assert table[..n] == table[..n - 1] + [last];
      forall r | r in before
        ensures r.id < last.id
      {
        EarlierIds(table, n - 1, r);
      }
      AscendingAppends(before, last);
      assert before + [] == before;
    } else {
      NothingAscends();
    }
  }

  lemma NothingAscends()
    ensures IdsAscend([])
  {
  }

  lemma EarlierIds(table: seq<Row>, n: nat, r: Row)
    requires IdsAscend(table) && n < |table| && r in table[..n]
    ensures r.id < table[n].id
  {
    var i :| 0 <= i < n && table[..n][i] == r;
    assert table[i] == r;
  }

  lemma AscendingAppends(table: seq<Row>, last: Row)
    requires IdsAscend(table) && forall r :: r in table ==> r.id < last.id
    ensures IdsAscend(table + [last])
  {
    assert forall i :: 0 <= i < |table| ==> table[i] in table;
  }

  /** deduplicate() keeps the first copy of every game and leaves a reconciled table, on which the index can be created. */
  lemma ReconciledIsOk(h: MoveHash, table: seq<Row>)
    requires IdsAscend(table)
    ensures Games(Reconciled(h, table)) == Dedup(h, Games(table))
    ensures TableOk(h, Reconciled(h, table)) && IndexFits(h, Reconciled(h, table))
  {
    hide IdentityCount, Contains, SameGame;
    DeletedGames(h, table, |table|);
    assert table[..|table|] == table && Games(table)[..|table|] == Games(table);
    var kept, result := DeleteDuplicates(h, table, table), Reconciled(h, table);
    assert Games(result) == Games(kept);
    DedupIsFree(h, Games(table));
    IndexFitsReconciled(h, result);
  }

  // What reconciliation leaves, field by field.

  /** Collision numbers count the earlier rows that agree in the first five fields and the move hash. */
  ghost predicate Numbered(h: MoveHash, table: seq<Row>) {
    forall k :: 0 <= k < |table| ==> table[k].collision == |EarlierOf(h, Games(table), k, table[k].game)|
  }

  lemma NumberedIs(h: MoveHash, table: seq<Row>)
    ensures Numbered(h, table) <==> CollisionsOk(h, table)
  {
    hide IdentityCount, EarlierOf;
    forall k | 0 <= k < |table|
      ensures IdentityCount(h, Games(table)[..k], table[k].game) == |EarlierOf(h, Games(table), k, table[k].game)|
    {
      IdentityCountIs(h, Games(table), k, table[k].game);
    }
  }

  /** A row agrees with one of lower id in all six fields. */
  predicate HasEarlierCopy(table: seq<Row>, r: Row) {
    exists k :: 0 <= k < |table| && table[k].id < r.id && (
      && table[k].game.white == r.game.white && table[k].game.black == r.game.black && table[k].game.event == r.game.event
      && table[k].game.result == r.game.result
      && (if table[k].game.date.Some? then table[k].game.date.value else "") == (if r.game.date.Some? then r.game.date.value else "")
      && table[k].game.moves == r.game.moves)
  }

  predicate IsRowOf(table: seq<Row>, id: nat, g: Game) {
    exists i :: 0 <= i < |table| && table[i].id == id && table[i].game == g
  }

  predicate HasId(table: seq<Row>, id: nat) {
    exists k :: 0 <= k < |table| && table[k].id == id
  }

  /**
   * Rows stay as they are but for their collision numbers; those go that agree in all six fields with a row of lower id that stays,
   * and no two rows agree in all six afterwards.
   */
  ghost predicate IsReconciled(h: MoveHash, before: seq<Row>, after: seq<Row>) {
    && IdsAscend(after) && Numbered(h, after)
    && (forall k :: 0 <= k < |after| ==> IsRowOf(before, after[k].id, after[k].game))
    && (forall r :: r in before ==> (HasId(after, r.id) <==> !HasEarlierCopy(before, r)))
    && (forall r :: r in before && !HasId(after, r.id) ==> HasEarlierCopy(after, r))
    && (forall k :: 0 <= k < |after| ==> !HasEarlierCopy(after, after[k]))
  }

  lemma {:induction false} LowestStays(h: MoveHash, table: seq<Row>, all: seq<Row>, i: nat)
    requires i < |table| && LowestOfGroup(h, all, table[i])
    ensures table[i] in DeleteDuplicates(h, table, all)
    decreases |table|
  {
    hide LowestOfGroup;
    if i < |table| - 1 {
      LowestStays(h, table[..|table| - 1], all, i);
    }
  }

  lemma {:induction false} OnlyLowestStay(h: MoveHash, table: seq<Row>, all: seq<Row>, r: Row)
    requires r in DeleteDuplicates(h, table, all)
    ensures r in table && LowestOfGroup(h, all, r)
  {
    hide LowestOfGroup;
    if r in DeleteDuplicates(h, table[..|table| - 1], all) {
      OnlyLowestStay(h, table[..|table| - 1], all, r);
    }
  }

  lemma LowestHasNoCopy(h: MoveHash, table: seq<Row>, r: Row)
    ensures LowestOfGroup(h, table, r) <==> !HasEarlierCopy(table, r)
  {
    hide SameGame;
    forall k | 0 <= k < |table|
      ensures SameGame(h, table[k].game, r.game) <==>
        && table[k].game.white == r.game.white && table[k].game.black == r.game.black && table[k].game.event == r.game.event
        && table[k].game.result == r.game.result
        && (if table[k].game.date.Some? then table[k].game.date.value else "") == (if r.game.date.Some? then r.game.date.value else "")
        && table[k].game.moves == r.game.moves
    {
      SameGameIs(h, table[k].game, r.game);
    }
  }

  lemma RenumberedKeeps(h: MoveHash, kept: seq<Row>, r: Row)
    ensures HasId(Renumbered(h, kept), r.id) <==> HasId(kept, r.id)
    ensures HasEarlierCopy(Renumbered(h, kept), r) <==> HasEarlierCopy(kept, r)
  {
    hide IdentityCount;
    var after := Renumbered(h, kept);
    assert forall k :: 0 <= k < |kept| ==> after[k].id == kept[k].id && after[k].game == kept[k].game;
  }

  /** The lowest row of a group that has an earlier copy stays, and agrees with every row of the group. */
  lemma {:induction false} LowestCopy(h: MoveHash, table: seq<Row>, r: Row, i: nat) returns (low: Row)
    requires IdsAscend(table) && i < |table| && SameGame(h, table[i].game, r.game) && table[i].id < r.id
    ensures low in table && low.id < r.id && SameGame(h, low.game, r.game) && LowestOfGroup(h, table, low)
    decreases i
  {
    hide SameIdentity, IdsAscend;
    if LowestOfGroup(h, table, table[i]) {
      low := table[i];
    } else {
      var k :| 0 <= k < |table| && SameGame(h, table[k].game, table[i].game) && table[k].id < table[i].id;
      EarlierIsBefore(table, k, i);
      SameThrough(h, table[k].game, table[i].game, r.game);
      low := LowestCopy(h, table, r, k);
    }
  }

  lemma EarlierIsBefore(table: seq<Row>, k: nat, i: nat)
    requires IdsAscend(table) && k < |table| && i < |table| && table[k].id < table[i].id
    ensures k < i
  {
  }

  lemma SameThrough(h: MoveHash, a: Game, b: Game, c: Game)
    requires SameGame(h, a, b) && SameGame(h, b, c)
    ensures SameGame(h, a, c)
  {
  }

  lemma IdIsRow(table: seq<Row>, a: Row, b: Row)
    requires IdsAscend(table) && a in table && b in table && a.id == b.id
    ensures a == b
  {
  }

  lemma RemovedHasCopy(h: MoveHash, table: seq<Row>, kept: seq<Row>, r: Row)
    requires IdsAscend(table) && HasEarlierCopy(table, r) && kept == DeleteDuplicates(h, table, table)
    ensures HasEarlierCopy(kept, r)
  {
    hide LowestOfGroup, IdsAscend, DeleteDuplicates, SameGame;
    var i :| 0 <= i < |table| && table[i].id < r.id && (
      && table[i].game.white == r.game.white && table[i].game.black == r.game.black && table[i].game.event == r.game.event
      && table[i].game.result == r.game.result
      && (if table[i].game.date.Some? then table[i].game.date.value else "") == (if r.game.date.Some? then r.game.date.value else "")
      && table[i].game.moves == r.game.moves);
    SameGameIs(h, table[i].game, r.game);
    var low := LowestCopy(h, table, r, i);
    var k :| 0 <= k < |table| && table[k] == low;
    LowestStays(h, table, table, k);
    var j :| 0 <= j < |kept| && kept[j] == low;
    SameGameIs(h, kept[j].game, r.game);
  }

  lemma StaysExactly(h: MoveHash, table: seq<Row>, kept: seq<Row>, r: Row)
    requires IdsAscend(table) && r in table && kept == DeleteDuplicates(h, table, table)
    ensures HasId(kept, r.id) <==> !HasEarlierCopy(table, r)
  {
    hide LowestOfGroup, IdsAscend, DeleteDuplicates, HasEarlierCopy;
    LowestHasNoCopy(h, table, r);
    if HasId(kept, r.id) {
      var k :| 0 <= k < |kept| && kept[k].id == r.id;
      OnlyLowestStay(h, table, table, kept[k]);
      IdIsRow(table, kept[k], r);
    }
    if LowestOfGroup(h, table, r) {
      var i :| 0 <= i < |table| && table[i] == r;
      LowestStays(h, table, table, i);
      var k :| 0 <= k < |kept| && kept[k] == r;
    }
  }

  lemma KeptHasNoCopy(h: MoveHash, table: seq<Row>, kept: seq<Row>, r: Row)
    requires kept == DeleteDuplicates(h, table, table) && r in kept
    ensures !HasEarlierCopy(kept, r)
  {
    hide LowestOfGroup, DeleteDuplicates;
    OnlyLowestStay(h, table, table, r);
    LowestHasNoCopy(h, table, r);
    forall k | 0 <= k < |kept|
      ensures kept[k] in table
    {
      OnlyLowestStay(h, table, table, kept[k]);
    }
    CopyInMore(kept, table, r);
  }

  lemma CopyInMore(part: seq<Row>, table: seq<Row>, r: Row)
    requires forall k :: 0 <= k < |part| ==> part[k] in table
    ensures HasEarlierCopy(part, r) ==> HasEarlierCopy(table, r)
  {
    forall k | 0 <= k < |part|
      ensures exists i :: 0 <= i < |table| && table[i] == part[k]
    {
      assert part[k] in table;
    }
  }

  /** deduplicate() reconciles. */
  lemma ReconciledIs(h: MoveHash, table: seq<Row>)
    requires IdsAscend(table)
    ensures IsReconciled(h, table, Reconciled(h, table))
  {
    hide IdsAscend, DeleteDuplicates, HasEarlierCopy, HasId, Numbered, CollisionsOk, DuplicateFree, Dedup, IdentityCount;
    var kept, after := DeleteDuplicates(h, table, table), Reconciled(h, table);
    ReconciledIsOk(h, table);
    NumberedIs(h, after);
    forall r | r in table
      ensures HasId(after, r.id) <==> !HasEarlierCopy(table, r)
      ensures !HasId(after, r.id) ==> HasEarlierCopy(after, r)
    {
      RenumberedKeeps(h, kept, r);
      StaysExactly(h, table, kept, r);
      if HasEarlierCopy(table, r) {
        RemovedHasCopy(h, table, kept, r);
      }
    }
    forall k | 0 <= k < |after|
      ensures !HasEarlierCopy(after, after[k]) && IsRowOf(table, after[k].id, after[k].game)
    {
      assert kept[k] in kept;
      OnlyLowestStay(h, table, table, kept[k]);
      KeptHasNoCopy(h, table, kept, kept[k]);
      RenumberedKeeps(h, kept, kept[k]);
      SameCopies(after, after[k], kept[k]);
      var i :| 0 <= i < |table| && table[i] == kept[k];
    }
  }

  lemma SameCopies(table: seq<Row>, a: Row, b: Row)
    requires a.id == b.id && a.game == b.game
    ensures HasEarlierCopy(table, a) <==> HasEarlierCopy(table, b)
  {
  }

  /** What insert() rejects, field by field. */
  lemma DuplicateIs(h: MoveHash, table: seq<Row>, g: Game)
    ensures Contains(h, Games(table), g) <==>
      exists i :: 0 <= i < |table| && (
        && table[i].game.white == g.white && table[i].game.black == g.black && table[i].game.event == g.event && table[i].game.result == g.result
        && (if table[i].game.date.Some? then table[i].game.date.value else "") == (if g.date.Some? then g.date.value else "") && table[i].game.moves == g.moves)
  {
    forall i | 0 <= i < |table|
      ensures Games(table)[i] == table[i].game
    {
    }
  }

  /** A row agrees with the game in the first five fields and the move hash. */
  predicate Agrees(h: MoveHash, table: seq<Row>, i: nat, g: Game)
    requires i < |table|
  {
    && table[i].game.white == g.white && table[i].game.black == g.black && table[i].game.event == g.event && table[i].game.result == g.result
    && (if table[i].game.date.Some? then table[i].game.date.value else "") == (if g.date.Some? then g.date.value else "")
    && h(table[i].game.moves) == h(g.moves)
  }

  /** One above the greatest collision number of the rows that agree, or zero. */
  predicate IsNextCollision(h: MoveHash, table: seq<Row>, g: Game, c: nat) {
    && (forall i :: 0 <= i < |table| && Agrees(h, table, i, g) ==> table[i].collision < c)
    && (c == 0 || exists i :: 0 <= i < |table| && Agrees(h, table, i, g) && table[i].collision + 1 == c)
  }

  lemma {:induction false} NextIsAbove(h: MoveHash, table: seq<Row>, g: Game)
    ensures IsNextCollision(h, table, g, NextCollision(h, table, g))
  {
    if table != [] {
      hide SameIdentity;
      var front, last := table[..|table| - 1], table[|table| - 1];
      NextIsAbove(h, front, g);
      SameIdentityIs(h, last.game, g);
      var before := NextCollision(h, front, g);
      forall i | 0 <= i < |front|
        ensures Agrees(h, table, i, g) <==> Agrees(h, front, i, g)
      {
      }
      if before > 0 {
        var i :| 0 <= i < |front| && Agrees(h, front, i, g) && front[i].collision + 1 == before;
        assert Agrees(h, table, i, g) && table[i].collision + 1 == before;
      }
      assert Agrees(h, table, |front|, g) <==> SameIdentity(h, last.game, g);
    }
  }

  lemma ClashIs(h: MoveHash, table: seq<Row>, g: Game)
    ensures Clashes(h, table, g) <==> exists i :: 0 <= i < |table| && Agrees(h, table, i, g) && table[i].collision == 0
  {
    forall i | 0 <= i < |table|
      ensures SameIdentity(h, table[i].game, g) <==> Agrees(h, table, i, g)
    {
    }
  }

  lemma NextNumber(h: MoveHash, table: seq<Row>, g: Game)
    ensures Numbered(h, table) ==> NextCollision(h, table, g) == |EarlierOf(h, Games(table), |table|, g)|
  {
    hide IdentityCount, EarlierOf, NextCollision, CollisionsOk, Numbered;
    NumberedIs(h, table);
    if Numbered(h, table) {
      NextCollisionCounts(h, table, g);
      IdentityCountIs(h, Games(table), |table|, g);
      assert Games(table)[..|table|] == Games(table);
    }
  }

  // Durable storage and crashes.

  /** Where an import got to: everything before `position` is in the table; `committed` only decides between the insert modes. */
  datatype Checkpoint = Checkpoint(position: nat, committed: int)

  /** The committed database and the checkpoint file; `steps` durable effects are left before the process crashes. */
  class Storage {
    var table: seq<Row>
    var hasIndex: bool
    var checkpoint: Option<Checkpoint>
    var steps: nat

    predicate Crashed()
      reads this
    {
      steps == 0
    }

    constructor (table: seq<Row>)
      ensures this.table == table && hasIndex && checkpoint.None? && steps == 0
    {
      this.table, hasIndex, checkpoint, steps := table, true, None, 0;
    }

    method Boot(effects: nat)
      modifies `steps
      ensures steps == effects
    {
      steps := effects;
    }

    /** One committed transaction. */
    method Commit(table: seq<Row>, hasIndex: bool)
      modifies this`table, this`hasIndex, `steps
      ensures steps <= old(steps)
      ensures if old(Crashed()) then this.table == old(this.table) && this.hasIndex == old(this.hasIndex)
              else this.table == table && this.hasIndex == hasIndex
    {
      if steps > 0 {
        steps := steps - 1;
        this.table, this.hasIndex := table, hasIndex;
      }
    }

    /** write_checkpoint: an atomic rename that may fail, and whose failure the import ignores. */
    method WriteCheckpoint(c: Checkpoint, fails: bool)
      modifies `checkpoint, `steps
      ensures steps <= old(steps)
      ensures checkpoint == if old(Crashed()) || fails then old(checkpoint) else Some(c)
    {
      if steps > 0 {
        steps := steps - 1;
        if !fails {
          checkpoint := Some(c);
        }
      }
    }

    method DeleteCheckpoint()
      modifies `checkpoint, `steps
      ensures steps <= old(steps)
      ensures checkpoint == old(checkpoint) || checkpoint.None?
    {
      if steps > 0 {
        steps := steps - 1;
        var failed: bool := *;
        if !failed {
          checkpoint := None;
        }
      }
    }
  }

  /** game_writer: statements run in the open transaction, or each in its own. */
  class GameWriter {
    const storage: Storage
    const h: MoveHash
    var inTransaction: bool
    var working: seq<Row>  // the table as the open transaction sees it

    /** The table as this connection sees it. */
    function Table(): seq<Row>
      reads this, storage
    {
      if inTransaction then working else storage.table
    }

    constructor (storage: Storage, h: MoveHash)
      ensures this.storage == storage && this.h == h && !inTransaction
    {
      this.storage, this.h := storage, h;
      inTransaction, working := false, [];
    }

    method Begin()
      requires !inTransaction
      modifies this
      ensures inTransaction && Table() == old(storage.table)
    {
      inTransaction, working := true, storage.table;
    }

    /** A failed commit leaves the transaction open; without one there is nothing to commit. */
    method Commit(fails: bool) returns (ok: bool)
      modifies `inTransaction, storage`table, storage`hasIndex, storage`steps
      ensures ok == !(old(inTransaction) && fails) && inTransaction == !ok
      ensures storage.hasIndex == old(storage.hasIndex) && storage.steps <= old(storage.steps)
      ensures storage.table == if old(storage.Crashed()) || !ok then old(storage.table) else old(Table())
    {
      if !inTransaction {
        return true;
      }
      if fails {
        return false;
      }
      storage.Commit(working, storage.hasIndex);
      inTransaction := false;
      return true;
    }

    method Rollback()
      modifies `inTransaction
      ensures !inTransaction
    {
      inTransaction := false;
    }

    /** A changed table: part of the open transaction, or committed at once. */
    method Write(table: seq<Row>)
      modifies `working, storage`table, storage`hasIndex, storage`steps
      ensures storage.hasIndex == old(storage.hasIndex) && storage.steps <= old(storage.steps)
      ensures if inTransaction then working == table && storage.table == old(storage.table)
              else storage.table == if old(storage.Crashed()) then old(storage.table) else table
    {
      if inTransaction {
        working := table;
      } else {
        storage.Commit(table, storage.hasIndex);
      }
    }

    /**
     * The game row and then its tag rows. A tag name that repeats fails on the primary key: a transaction of the insert's own is rolled
     * back, but in a transaction that was open before, the game row stays.
     */
    method InsertRow(g: Game, collision: nat) returns (r: Result<nat>)
      modifies `working, storage`table, storage`hasIndex, storage`steps
      ensures r == if Storable(g) then Ok(NextId(old(Table()))) else Err(IoFailure)
      ensures !(old(storage.Crashed()) && !inTransaction) ==>
        Table() == old(Table()) + if Storable(g) || inTransaction then [Row(NextId(old(Table())), g, collision)] else []
      ensures inTransaction || old(storage.Crashed()) || r.Err? ==> storage.table == old(storage.table)
      ensures storage.hasIndex == old(storage.hasIndex) && storage.steps <= old(storage.steps)
    {
      hide Storable;
      var table := Table();
      assert table + [] == table;
      if Storable(g) {
        Write(table + [Row(NextId(table), g, collision)]);
        return Ok(NextId(table));
      }
      if inTransaction {
        Write(table + [Row(NextId(table), g, collision)]);
      }
      return Err(IoFailure);
    }

    /** insert: one statement that rejects an exact duplicate and numbers a collision. */
    method Insert(g: Game) returns (r: Result<nat>)
      modifies `working, storage`table, storage`hasIndex, storage`steps
      ensures r == Err(Duplicate) <==>
        exists i :: 0 <= i < |old(Table())| && (
          && old(Table())[i].game.white == g.white && old(Table())[i].game.black == g.black && old(Table())[i].game.event == g.event
          && old(Table())[i].game.result == g.result
          && (if old(Table())[i].game.date.Some? then old(Table())[i].game.date.value else "") == (if g.date.Some? then g.date.value else "")
          && old(Table())[i].game.moves == g.moves)
      ensures r == if Contains(h, Games(old(Table())), g) then Err(Duplicate) else if Storable(g) then Ok(NextId(old(Table()))) else Err(IoFailure)
      ensures r == Err(Duplicate) || (r.Err? && !inTransaction) ==> Table() == old(Table()) && storage.table == old(storage.table)
      ensures r != Err(Duplicate) && (r.Ok? || inTransaction) && !(old(storage.Crashed()) && !inTransaction) ==>
        Table() == old(Table()) + [Row(NextId(old(Table())), g, NextCollision(h, old(Table()), g))]
      ensures IsNextCollision(h, old(Table()), g, NextCollision(h, old(Table()), g))
      ensures Numbered(h, old(Table())) ==> NextCollision(h, old(Table()), g) == |EarlierOf(h, Games(old(Table())), |old(Table())|, g)|
      ensures inTransaction || old(storage.Crashed()) ==> storage.table == old(storage.table)
      ensures storage.hasIndex == old(storage.hasIndex) && storage.steps <= old(storage.steps)
    {
      hide Storable, NextCollision, Contains, Numbered, EarlierOf, IsNextCollision;
      var table := Table();
      DuplicateIs(h, table, g);
      NextNumber(h, table, g);
      NextIsAbove(h, table, g);
      if Contains(h, Games(table), g) {
        return Err(Duplicate);
      }
      r := InsertRow(g, NextCollision(h, table, g));
    }

    /** insert_raw: a new row with collision number 0, which the unique identity index refuses if it is there and the number is taken. */
    method InsertRaw(g: Game) returns (r: Result<nat>)
      modifies `working, storage`table, storage`hasIndex, storage`steps
      ensures r ==
        if !(storage.hasIndex && Clashes(h, old(Table()), g)) && Storable(g) then Ok(NextId(old(Table()))) else Err(IoFailure)
      ensures r.Err? <==>
        || !Storable(g)
        || (storage.hasIndex && exists i :: 0 <= i < |old(Table())| && Agrees(h, old(Table()), i, g) && old(Table())[i].collision == 0)
      ensures storage.hasIndex && Clashes(h, old(Table()), g) ==> Table() == old(Table()) && storage.table == old(storage.table)
      ensures !(storage.hasIndex && Clashes(h, old(Table()), g)) && !(old(storage.Crashed()) && !inTransaction) ==>
        Table() == old(Table()) + if Storable(g) || inTransaction then [Row(NextId(old(Table())), g, 0)] else []
      ensures inTransaction || old(storage.Crashed()) || r.Err? ==> storage.table == old(storage.table)
      ensures storage.hasIndex == old(storage.hasIndex) && storage.steps <= old(storage.steps)
    {
      hide Storable, Clashes, Agrees;
      ClashIs(h, Table(), g);
      if storage.hasIndex && Clashes(h, Table(), g) {
        return Err(IoFailure);
      }
      r := InsertRow(g, 0);
    }

    /** drop_identity_index; it may fail. */
    method DropIdentityIndex() returns (ok: bool)
      requires !inTransaction
      modifies storage`table, storage`hasIndex, storage`steps
      ensures storage.table == old(storage.table) && storage.steps <= old(storage.steps)
      ensures ok && !old(storage.Crashed()) ==> !storage.hasIndex
      ensures storage.hasIndex ==> old(storage.hasIndex)
    {
      ok := *;
      if ok {
        storage.Commit(storage.table, false);
      }
    }

    /** deduplicate: delete, renumber and create the index, all or nothing. */
    method Deduplicate() returns (removed: Option<nat>)
      requires !inTransaction && IdsAscend(storage.table)
      modifies storage`table, storage`hasIndex, storage`steps
      ensures storage.steps <= old(storage.steps)
      ensures removed.None? || old(storage.Crashed()) ==> storage.table == old(storage.table) && storage.hasIndex == old(storage.hasIndex)
      ensures removed.Some? && !old(storage.Crashed()) ==> storage.table == Reconciled(h, old(storage.table)) && storage.hasIndex
      ensures removed.Some? && !old(storage.Crashed()) ==> IsReconciled(h, old(storage.table), storage.table)
      ensures removed.Some? ==> removed.value == |old(storage.table)| - |Reconciled(h, old(storage.table))|
    {
      var kept := DeleteDuplicates(h, storage.table, storage.table);
      FewerRows(h, storage.table);
      var renumbered := Renumbered(h, kept);
      hide IsReconciled;
      ReconciledIsOk(h, storage.table);
      ReconciledIs(h, storage.table);
      assert IndexFits(h, renumbered);
      var ok: bool := *;
      if !ok {
        return None;
      }
      removed := Some(|storage.table| - |kept|);
      storage.Commit(renumbered, true);
    }
  }

  lemma {:induction false} DeleteShrinks(h: MoveHash, table: seq<Row>, all: seq<Row>)
    ensures |DeleteDuplicates(h, table, all)| <= |table|
  {
    if table != [] {
      DeleteShrinks(h, table[..|table| - 1], all);
    }
  }

  lemma FewerRows(h: MoveHash, table: seq<Row>)
    ensures |DeleteDuplicates(h, table, table)| <= |table|
  {
    DeleteShrinks(h, table, table);
  }

  // Whole lists.

  /** Folding insert() over a list, each in its own transaction, ignoring failures. */
  function InsertAll(h: MoveHash, table: seq<Row>, gs: seq<Game>): seq<Row> {
    if gs == [] then table
    else
      var before, g := InsertAll(h, table, gs[..|gs| - 1]), gs[|gs| - 1];
      if Contains(h, Games(before), g) || !Storable(g) then before else before + [Row(NextId(before), g, NextCollision(h, before, g))]
  }

  function InsertAllRaw(h: MoveHash, table: seq<Row>, gs: seq<Game>): seq<Row> {
    if gs == [] then table
    else
      var before, g := InsertAllRaw(h, table, gs[..|gs| - 1]), gs[|gs| - 1];
      if Storable(g) then before + [Row(NextId(before), g, 0)] else before
  }

  function StorableGames(gs: seq<Game>): seq<Game> {
    if gs == [] then [] else StorableGames(gs[..|gs| - 1]) + if Storable(gs[|gs| - 1]) then [gs[|gs| - 1]] else []
  }

  lemma {:induction false} AllStorable(gs: seq<Game>)
    requires forall i :: 0 <= i < |gs| ==> Storable(gs[i])
    ensures StorableGames(gs) == gs
  {
    if gs != [] {
      hide Storable;
      AllStorable(gs[..|gs| - 1]);
      assert gs == gs[..|gs| - 1] + [gs[|gs| - 1]];
    }
  }

  lemma CheckedStorable(h: MoveHash, base: seq<Game>, gs: seq<Game>)
    requires gs != []
    ensures
      var front, g := gs[..|gs| - 1], gs[|gs| - 1];
      Checked(h, base, StorableGames(gs))
      == if Storable(g) then Inserted(h, Checked(h, base, StorableGames(front)), g) else Checked(h, base, StorableGames(front))
  {
    hide Inserted, Storable;
    var front, g := StorableGames(gs[..|gs| - 1]), gs[|gs| - 1];
    assert (front + [g])[..|front|] == front && front + [] == front;
  }

  lemma {:induction false} InsertAllIs(h: MoveHash, table: seq<Row>, gs: seq<Game>)
    requires TableOk(h, table)
    ensures TableOk(h, InsertAll(h, table, gs)) && Games(InsertAll(h, table, gs)) == Checked(h, Games(table), StorableGames(gs))
  {
    if gs != [] {
      hide Contains, DuplicateFree, CollisionsOk, IdentityCount, NextCollision, Storable, Checked, StorableGames;
      InsertAllIs(h, table, gs[..|gs| - 1]);
      CheckedStorable(h, Games(table), gs);
      var before, g := InsertAll(h, table, gs[..|gs| - 1]), gs[|gs| - 1];
      NextCollisionCounts(h, before, g);
      AppendedRow(h, before, g, NextCollision(h, before, g));
      if !Contains(h, Games(before), g) {
        AppendIsFree(h, Games(before), g);
      }
    }
  }

  lemma {:induction false} InsertAllRawIs(h: MoveHash, table: seq<Row>, gs: seq<Game>)
    requires IdsAscend(table)
    ensures IdsAscend(InsertAllRaw(h, table, gs)) && Games(InsertAllRaw(h, table, gs)) == Games(table) + StorableGames(gs)
  {
    if gs != [] {
      hide CollisionsOk, Storable, IdsAscend, NextId, IdentityCount, Games;
      var front, last := gs[..|gs| - 1], gs[|gs| - 1];
      InsertAllRawIs(h, table, front);
      AppendedRow(h, InsertAllRaw(h, table, front), last, 0);
      assert Games(table) + (StorableGames(front) + [last]) == Games(table) + StorableGames(front) + [last];
    } else {
      assert Games(table) + StorableGames(gs) == Games(table);
    }
  }

  /** How many of the games insert() rejects as duplicates. */
  function Rejected(h: MoveHash, table: seq<Row>, gs: seq<Game>): nat {
    if gs == [] then 0
    else
      Rejected(h, table, gs[..|gs| - 1])
      + if Contains(h, Games(InsertAll(h, table, gs[..|gs| - 1])), gs[|gs| - 1]) then 1 else 0
  }

  /** How many of those rejected have tags that insert_raw() could not have stored. */
  function RejectedUnstorable(h: MoveHash, table: seq<Row>, gs: seq<Game>): nat {
    if gs == [] then 0
    else
      RejectedUnstorable(h, table, gs[..|gs| - 1])
      + if Contains(h, Games(InsertAll(h, table, gs[..|gs| - 1])), gs[|gs| - 1]) && !Storable(gs[|gs| - 1]) then 1 else 0
  }

  lemma {:induction false} RejectedCounts(h: MoveHash, table: seq<Row>, gs: seq<Game>)
    ensures |InsertAll(h, table, gs)| + Rejected(h, table, gs) == |table| + |StorableGames(gs)| + RejectedUnstorable(h, table, gs)
  {
    if gs != [] {
      hide Contains, Storable, NextCollision;
      RejectedCounts(h, table, gs[..|gs| - 1]);
    }
  }

  /** The i-th game can be stored, or is no duplicate of what the checked inserts before it left. */
  predicate Accounted(h: MoveHash, table: seq<Row>, gs: seq<Game>, i: nat)
    requires i < |gs|
  {
    Storable(gs[i]) || !Contains(h, Games(InsertAll(h, table, gs[..i])), gs[i])
  }

  lemma {:induction false} NoneRejectedUnstorable(h: MoveHash, table: seq<Row>, gs: seq<Game>)
    ensures RejectedUnstorable(h, table, gs) == 0 <==> forall i :: 0 <= i < |gs| ==> Accounted(h, table, gs, i)
  {
    if gs != [] {
      var n := |gs| - 1;
      NoneRejectedUnstorable(h, table, gs[..n]);
      LastAccounted(h, table, gs);
      hide RejectedUnstorable, Accounted;
      forall i | 0 <= i < n
        ensures Accounted(h, table, gs[..n], i) <==> Accounted(h, table, gs, i)
      {
        EarlierAccounted(h, table, gs, i);
      }
    }
  }

  lemma EarlierAccounted(h: MoveHash, table: seq<Row>, gs: seq<Game>, i: nat)
    requires i < |gs| - 1
    ensures Accounted(h, table, gs[..|gs| - 1], i) <==> Accounted(h, table, gs, i)
  {
    hide Contains, Storable, InsertAll;
    assert gs[..|gs| - 1][..i] == gs[..i];
  }

  lemma LastAccounted(h: MoveHash, table: seq<Row>, gs: seq<Game>)
    requires gs != []
    ensures RejectedUnstorable(h, table, gs) == 0 <==> RejectedUnstorable(h, table, gs[..|gs| - 1]) == 0 && Accounted(h, table, gs, |gs| - 1)
  {
    hide Contains, Storable, InsertAll;
  }

  lemma SameCollisions(h: MoveHash, a: seq<Row>, b: seq<Row>)
    requires CollisionsOk(h, a) && CollisionsOk(h, b) && Games(a) == Games(b)
    ensures |a| == |b| && forall i :: 0 <= i < |a| ==> a[i].game == b[i].game && a[i].collision == b[i].collision
  {
    hide IdentityCount;
    forall i | 0 <= i < |a|
      ensures a[i].game == b[i].game && a[i].collision == b[i].collision
    {
      assert Games(a)[i] == Games(b)[i];
    }
  }

  /**
   * From a reconciled table, raw inserts followed by one deduplicate() give the rows of checked inserts: the same games with the same
   * payloads and collision numbers in the same order (ids may differ). As many rows are removed as inserts were rejected as duplicates,
   * exactly when no game rejected as a duplicate repeats a tag name.
   */
  lemma RawImportIsCheckedImport(h: MoveHash, table: seq<Row>, gs: seq<Game>)
    requires TableOk(h, table)
    ensures
      var checked, raw := InsertAll(h, table, gs), InsertAllRaw(h, table, gs);
      var reconciled := Reconciled(h, raw);
      && |reconciled| == |checked|
      && (forall i :: 0 <= i < |checked| ==> reconciled[i].game == checked[i].game && reconciled[i].collision == checked[i].collision)
      && FirstCopies(Games(reconciled), Games(raw)) && Games(raw) == Games(table) + StorableGames(gs) && Numbered(h, reconciled)
      && TableOk(h, checked) && TableOk(h, reconciled) && IndexFits(h, reconciled)
      && (|raw| - |reconciled| == Rejected(h, table, gs) <==> forall i :: 0 <= i < |gs| ==> Accounted(h, table, gs, i))
  {
    hide Contains, DuplicateFree, CollisionsOk, IdentityCount, NextCollision, Checked, Dedup, Reconciled, IndexFits;
    hide InsertAll, InsertAllRaw, Rejected, RejectedUnstorable, StorableGames, Storable, Accounted, FirstCopies, Numbered;
    InsertAllIs(h, table, gs);
    InsertAllRawIs(h, table, gs);
    var raw := InsertAllRaw(h, table, gs);
    ReconciledIsOk(h, raw);
    RawThenDedup(h, Games(table), StorableGames(gs));
    DedupIsFirstCopies(h, Games(raw));
    NumberedIs(h, Reconciled(h, raw));
    DedupOfFree(h, Games(table));
    SameCollisions(h, InsertAll(h, table, gs), Reconciled(h, raw));
    RejectedCounts(h, table, gs);
    NoneRejectedUnstorable(h, table, gs);
    assert |raw| == |Games(raw)| == |table| + |StorableGames(gs)|;
  }

  lemma SingleInsert(h: MoveHash, table: seq<Row>, g: Game)
    requires Contains(h, Games(table), g) && !Storable(g)
    ensures InsertAll(h, table, [g]) == table && InsertAllRaw(h, table, [g]) == table && Rejected(h, table, [g]) == 1
  {
    hide Contains, Storable, NextCollision;
    assert [g][..0] == [];
  }

  lemma SingleRow(h: MoveHash, row: Row)
    requires row.collision == 0
    ensures TableOk(h, [row]) && Reconciled(h, [row]) == [row]
  {
    hide SameIdentity;
    assert Games([row])[..0] == [];
    assert LowestOfGroup(h, [row], row);
    assert [row][..0] == [];
    assert DeleteDuplicates(h, [row], [row]) == DeleteDuplicates(h, [], [row]) + [row] == [row];
  }

  /**
   * The difference is real: a second copy of a stored game whose tags repeat a name is rejected as a duplicate by insert(), but
   * fails in insert_raw(), so deduplicate() has nothing to remove.
   */
  lemma RepeatedTagsDiffer(h: MoveHash, row: Row, tags: seq<(string, string)>)
    requires row.collision == 0 && !DistinctTags(tags)
    ensures
      var table, gs := [row], [row.game.(payload := row.game.payload.(tags := tags))];
      && TableOk(h, table)
      && Rejected(h, table, gs) == 1 && InsertAll(h, table, gs) == table
      && InsertAllRaw(h, table, gs) == table && Reconciled(h, table) == table
  {
    hide TableOk, Reconciled, InsertAll, InsertAllRaw, Rejected, DistinctTags;
    var g := row.game.(payload := row.game.payload.(tags := tags));
    assert Games([row])[0] == row.game && SameGame(h, row.game, g);
    SingleRow(h, row);
    SingleInsert(h, [row], g);
  }
}
