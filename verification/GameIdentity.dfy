/** When two games are the same, and what it means to insert a list of games checked or to deduplicate it afterwards. */
module GameIdentity {
  import opened Words

  /** What no identity depends on. */
  datatype Payload = Payload(eco: Option<string>, whiteElo: Option<int>, blackElo: Option<int>, tags: seq<(string, string)>, source: string)

  datatype Game = Game(white: string, black: string, event: Option<string>, date: Option<string>, result: string, moves: seq<nat>,
                       payload: Payload)

  /** No tag name twice, as game_tag's primary key demands. */
  predicate DistinctTags(tags: seq<(string, string)>) {
    forall i, j :: 0 <= i < j < |tags| ==> tags[i].0 != tags[j].0
  }

  /** A game whose tag rows the table takes. */
  predicate Storable(g: Game) {
    DistinctTags(g.payload.tags)
  }

  /** The 64-bit move hash, about which nothing is assumed: distinct move lists may collide. */
  type MoveHash = seq<nat> -> nat

  /** COALESCE(date, ''). */
  function DateText(g: Game): string {
    if g.date.Some? then g.date.value else ""
  }

  /** Equal in every indexed field. */
  predicate SameIdentity(h: MoveHash, a: Game, b: Game) {
    a.white == b.white && a.black == b.black && a.event == b.event && DateText(a) == DateText(b) && a.result == b.result && h(a.moves) == h(b.moves)
  }

  /** An exact duplicate: the moves agree too. */
  predicate SameGame(h: MoveHash, a: Game, b: Game) {
    SameIdentity(h, a, b) && a.moves == b.moves
  }

  predicate Contains(h: MoveHash, gs: seq<Game>, g: Game) {
    exists i :: 0 <= i < |gs| && SameGame(h, gs[i], g)
  }

  predicate DuplicateFree(h: MoveHash, gs: seq<Game>) {
    forall i, j :: 0 <= i < j < |gs| ==> !SameGame(h, gs[i], gs[j])
  }

  /** The first copy of every game. */
  function Dedup(h: MoveHash, gs: seq<Game>): seq<Game> {
    if gs == [] then []
    else
      var front := Dedup(h, gs[..|gs| - 1]);
      if Contains(h, gs[..|gs| - 1], gs[|gs| - 1]) then front else front + [gs[|gs| - 1]]
  }

  /** One checked insert after the other: a game that is already there is rejected. */
  function Checked(h: MoveHash, base: seq<Game>, gs: seq<Game>): seq<Game> {
    if gs == [] then base else Inserted(h, Checked(h, base, gs[..|gs| - 1]), gs[|gs| - 1])
  }

  function Inserted(h: MoveHash, gs: seq<Game>, g: Game): seq<Game> {
    if Contains(h, gs, g) then gs else gs + [g]
  }

  lemma ContainsAppends(h: MoveHash, gs: seq<Game>, g: Game, x: Game)
    ensures Contains(h, gs + [g], x) <==> Contains(h, gs, x) || SameGame(h, g, x)
  {
    hide SameGame;
    if i :| 0 <= i < |gs| && SameGame(h, gs[i], x) {
      assert (gs + [g])[i] == gs[i];
    }
    if SameGame(h, g, x) {
      assert (gs + [g])[|gs|] == g;
    }
    if i :| 0 <= i < |gs + [g]| && SameGame(h, (gs + [g])[i], x) {
      assert i < |gs| ==> (gs + [g])[i] == gs[i];
    }
  }

  lemma {:induction false} DedupContains(h: MoveHash, gs: seq<Game>, g: Game)
    ensures Contains(h, Dedup(h, gs), g) <==> Contains(h, gs, g)
  {
    if gs != [] {
      hide Contains;
      var front, last := gs[..|gs| - 1], gs[|gs| - 1];
      assert gs == front + [last];
      DedupContains(h, front, g);
      ContainsAppends(h, front, last, g);
      ContainsAppends(h, Dedup(h, front), last, g);
      if Contains(h, front, last) && SameGame(h, last, g) {
        ContainsSame(h, front, last, g);
      }
    }
  }

  lemma ContainsSame(h: MoveHash, gs: seq<Game>, a: Game, b: Game)
    requires Contains(h, gs, a) && SameGame(h, a, b)
    ensures Contains(h, gs, b)
  {
    var i :| 0 <= i < |gs| && SameGame(h, gs[i], a);
    assert SameGame(h, gs[i], b);
  }

  lemma AppendIsFree(h: MoveHash, gs: seq<Game>, g: Game)
    requires DuplicateFree(h, gs) && !Contains(h, gs, g)
    ensures DuplicateFree(h, gs + [g])
  {
    hide SameGame;
  }

  lemma {:induction false} DedupIsFree(h: MoveHash, gs: seq<Game>)
    ensures DuplicateFree(h, Dedup(h, gs))
  {
    if gs != [] {
      hide Contains, DuplicateFree;
      DedupIsFree(h, gs[..|gs| - 1]);
      DedupContains(h, gs[..|gs| - 1], gs[|gs| - 1]);
      if !Contains(h, gs[..|gs| - 1], gs[|gs| - 1]) {
        AppendIsFree(h, Dedup(h, gs[..|gs| - 1]), gs[|gs| - 1]);
      }
    } else {
      assert DuplicateFree(h, []);
    }
  }

  lemma {:induction false} DedupOfFree(h: MoveHash, gs: seq<Game>)
    requires DuplicateFree(h, gs)
    ensures Dedup(h, gs) == gs
  {
    if gs != [] {
      hide SameGame;
      var front := gs[..|gs| - 1];
      assert forall i :: 0 <= i < |front| ==> front[i] == gs[i];
      DedupOfFree(h, front);
      assert !Contains(h, front, gs[|gs| - 1]);
      assert gs == front + [gs[|gs| - 1]];
    }
  }

  /** Deduplicating a raw append is a checked insert into the deduplicated list. */
  lemma DedupOfAppend(h: MoveHash, gs: seq<Game>, g: Game)
    ensures Dedup(h, gs + [g]) == Inserted(h, Dedup(h, gs), g)
  {
    hide Contains;
    assert (gs + [g])[..|gs|] == gs;
    DedupContains(h, gs, g);
  }

  /** Raw inserts followed by one deduplication are checked inserts, from the deduplicated start. */
  lemma {:induction false} RawThenDedup(h: MoveHash, base: seq<Game>, gs: seq<Game>)
    ensures Dedup(h, base + gs) == Checked(h, Dedup(h, base), gs)
  {
    hide Dedup, Inserted;
    if gs == [] {
      assert base + gs == base;
    } else {
      var front, last := gs[..|gs| - 1], gs[|gs| - 1];
      RawThenDedup(h, base, front);
      assert base + gs == base + front + [last];
      DedupOfAppend(h, base + front, last);
    }
  }

  /** Whatever was inserted stays there. */
  lemma {:induction false} CheckedContains(h: MoveHash, base: seq<Game>, gs: seq<Game>, i: nat)
    requires i < |gs|
    ensures Contains(h, Checked(h, base, gs), gs[i])
    decreases |gs|
  {
    hide Contains;
    var front, last := gs[..|gs| - 1], gs[|gs| - 1];
    var acc := Checked(h, base, front);
    ContainsAppends(h, acc, last, gs[i]);
    if i < |front| {
      CheckedContains(h, base, front, i);
      assert front[i] == gs[i];
    } else {
      assert SameGame(h, last, last);
    }
  }

  // What the two comparisons mean, field by field; an absent date is an empty one.

  lemma SameGameIs(h: MoveHash, a: Game, b: Game)
    ensures SameGame(h, a, b) <==>
      && a.white == b.white && a.black == b.black && a.event == b.event && a.result == b.result
      && (if a.date.Some? then a.date.value else "") == (if b.date.Some? then b.date.value else "") && a.moves == b.moves
  {
  }

  lemma SameIdentityIs(h: MoveHash, a: Game, b: Game)
    ensures SameIdentity(h, a, b) <==>
      && a.white == b.white && a.black == b.black && a.event == b.event && a.result == b.result
      && (if a.date.Some? then a.date.value else "") == (if b.date.Some? then b.date.value else "") && h(a.moves) == h(b.moves)
  {
  }

  /** Of every group of games that agree in all six fields exactly the first is kept, in order, as it is. */
  ghost predicate FirstCopies(kept: seq<Game>, gs: seq<Game>) {
    exists picks: seq<nat> ::
      && |picks| == |kept| && (forall i, j :: 0 <= i < j < |picks| ==> picks[i] < picks[j])
      && (forall i :: 0 <= i < |picks| ==> picks[i] < |gs| && kept[i] == gs[picks[i]])
      && (forall k: nat :: k < |gs| ==> (k in picks <==> IsFirstCopy(gs, k)))
  }

  /** No earlier game agrees with it. */
  predicate IsFirstCopy(gs: seq<Game>, k: nat)
    requires k < |gs|
  {
    forall j :: 0 <= j < k ==>
      !(&& gs[j].white == gs[k].white && gs[j].black == gs[k].black && gs[j].event == gs[k].event && gs[j].result == gs[k].result
        && (if gs[j].date.Some? then gs[j].date.value else "") == (if gs[k].date.Some? then gs[k].date.value else "") && gs[j].moves == gs[k].moves)
  }

  lemma FirstCopyIs(h: MoveHash, gs: seq<Game>, k: nat)
    requires k < |gs|
    ensures IsFirstCopy(gs, k) <==> !Contains(h, gs[..k], gs[k])
  {
    hide SameGame;
    forall j | 0 <= j < k
      ensures gs[..k][j] == gs[j]
      ensures SameGame(h, gs[j], gs[k]) <==>
        && gs[j].white == gs[k].white && gs[j].black == gs[k].black && gs[j].event == gs[k].event && gs[j].result == gs[k].result
        && (if gs[j].date.Some? then gs[j].date.value else "") == (if gs[k].date.Some? then gs[k].date.value else "")
        && gs[j].moves == gs[k].moves
    {
      SameGameIs(h, gs[j], gs[k]);
    }
    if Contains(h, gs[..k], gs[k]) {
      var i :| 0 <= i < k && SameGame(h, gs[..k][i], gs[k]);
    }
    if !IsFirstCopy(gs, k) {
      var j :| 0 <= j < k && SameGame(h, gs[j], gs[k]);
      assert SameGame(h, gs[..k][j], gs[k]);
    }
  }

  /** The positions of the games that are kept. */
  function Picks(h: MoveHash, gs: seq<Game>): seq<nat> {
    if gs == [] then []
    else
      var front := Picks(h, gs[..|gs| - 1]);
      if Contains(h, gs[..|gs| - 1], gs[|gs| - 1]) then front else front + [|gs| - 1]
  }

  predicate RiseBelow(picks: seq<nat>, n: nat) {
    (forall i, j :: 0 <= i < j < |picks| ==> picks[i] < picks[j]) && (forall i :: 0 <= i < |picks| ==> picks[i] < n)
  }

  lemma {:induction false} PicksRise(h: MoveHash, gs: seq<Game>)
    ensures RiseBelow(Picks(h, gs), |gs|)
  {
    hide Contains;
    if gs != [] {
      PicksRise(h, gs[..|gs| - 1]);
    }
  }

  lemma {:induction false} PicksKept(h: MoveHash, gs: seq<Game>)
    ensures |Picks(h, gs)| == |Dedup(h, gs)|
    ensures forall i :: 0 <= i < |Picks(h, gs)| ==> Picks(h, gs)[i] < |gs| && Dedup(h, gs)[i] == gs[Picks(h, gs)[i]]
  {
    hide Contains;
    if gs != [] {
      PicksKept(h, gs[..|gs| - 1]);
    }
  }

  lemma {:induction false} PicksAre(h: MoveHash, gs: seq<Game>, k: nat)
    requires k < |gs|
    ensures k in Picks(h, gs) <==> !Contains(h, gs[..k], gs[k])
    decreases |gs|
  {
    hide Contains;
    var n := |gs| - 1;
    PicksRise(h, gs[..n]);
    if k < n {
      PicksAre(h, gs[..n], k);
      assert gs[..n][..k] == gs[..k];
    } else {
      assert forall p :: p in Picks(h, gs[..n]) ==> p < n;
    }
  }

  /** Deduplication keeps exactly the first copies. */
  lemma DedupIsFirstCopies(h: MoveHash, gs: seq<Game>)
    ensures FirstCopies(Dedup(h, gs), gs)
  {
    hide Contains, Dedup, IsFirstCopy, Picks;
    var picks := Picks(h, gs);
    PicksRise(h, gs);
    PicksKept(h, gs);
    forall k: nat | k < |gs|
      ensures k in picks <==> IsFirstCopy(gs, k)
    {
      PicksAre(h, gs, k);
      FirstCopyIs(h, gs, k);
    }
  }

  // Collision numbers.

  /** How many games share the identity. */
  function IdentityCount(h: MoveHash, gs: seq<Game>, g: Game): nat {
    if gs == [] then 0
    else IdentityCount(h, gs[..|gs| - 1], g) + if SameIdentity(h, gs[|gs| - 1], g) then 1 else 0
  }

  /** The earlier games that agree in the first five fields and the move hash, by position. */
  ghost function EarlierOf(h: MoveHash, gs: seq<Game>, k: nat, g: Game): set<nat>
    requires k <= |gs|
  {
    set i: nat |
      && i < k && gs[i].white == g.white && gs[i].black == g.black && gs[i].event == g.event && gs[i].result == g.result
      && (if gs[i].date.Some? then gs[i].date.value else "") == (if g.date.Some? then g.date.value else "") && h(gs[i].moves) == h(g.moves)
  }

  lemma {:induction false} IdentityCountIs(h: MoveHash, gs: seq<Game>, k: nat, g: Game)
    requires k <= |gs|
    ensures IdentityCount(h, gs[..k], g) == |EarlierOf(h, gs, k, g)|
  {
    if k > 0 {
      hide SameIdentity;
      IdentityCountIs(h, gs, k - 1, g);
      SameIdentityIs(h, gs[k - 1], g);
      assert gs[..k][..k - 1] == gs[..k - 1];
      if SameIdentity(h, gs[k - 1], g) {
        assert EarlierOf(h, gs, k, g) == EarlierOf(h, gs, k - 1, g) + {k - 1};
      } else {
        assert EarlierOf(h, gs, k, g) == EarlierOf(h, gs, k - 1, g);
      }
    } else {
      assert EarlierOf(h, gs, 0, g) == {};
    }
  }

  lemma {:induction false} CountOfSame(h: MoveHash, gs: seq<Game>, a: Game, b: Game)
    requires SameIdentity(h, a, b)
    ensures IdentityCount(h, gs, a) == IdentityCount(h, gs, b)
  {
    if gs != [] {
      CountOfSame(h, gs[..|gs| - 1], a, b);
    }
  }

  lemma {:induction false} CountGrows(h: MoveHash, gs: seq<Game>, i: nat, g: Game)
    requires i < |gs| && SameIdentity(h, gs[i], g)
    ensures IdentityCount(h, gs[..i], g) < IdentityCount(h, gs, g)
    decreases |gs|
  {
    hide SameIdentity;
    if i < |gs| - 1 {
      CountGrows(h, gs[..|gs| - 1], i, g);
      assert gs[..|gs| - 1][..i] == gs[..i];
    }
  }
}
