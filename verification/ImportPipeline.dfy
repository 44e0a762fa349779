/** Bulk import of one file: batches, checkpoints, cancellation, crashes and resumption. */
module ImportPipeline {
  import opened Words
  import opened GameIdentity
  import opened GameWriter

  /** prepare_game() fills no extra tags, so no insert of the import can fail on a repeated tag name. */
  type PreparedGame = g: Game | g.payload.tags == []
    witness Game("", "", None, None, "", [], Payload(None, None, None, [], ""))

  /**
   * What the reader and the preparation stage make of the next entry of the file; `tagged` entries begin with an Event line, which is
   * where reset_to_offset() can start reading.
   */
  datatype Token = Valid(game: PreparedGame, tagged: bool) | Malformed(tagged: bool)

  predicate AllTagged(tokens: seq<Token>) {
    forall i :: 0 <= i < |tokens| ==> tokens[i].tagged
  }

  function FirstTagged(tokens: seq<Token>, p: nat): (q: nat)
    requires p <= |tokens|
    ensures p <= q <= |tokens|
    ensures q < |tokens| ==> tokens[q].tagged
    ensures forall i :: p <= i < q ==> !tokens[i].tagged
    decreases |tokens| - p
  {
    if p == |tokens| || tokens[p].tagged then p else FirstTagged(tokens, p + 1)
  }

  /** The entry at which reading resumes; no Event line behind a position inside the file is an error. */
  function ResumePoint(tokens: seq<Token>, p: nat): Option<nat>
    requires p <= |tokens|
  {
    var q := FirstTagged(tokens, p);
    if q == |tokens| && 0 < p < |tokens| then None else Some(q)
  }

  /** Reading resumes at the entry asked for exactly when that entry begins with an Event line. */
  lemma ResumesExactly(tokens: seq<Token>, p: nat)
    requires p <= |tokens|
    ensures ResumePoint(tokens, p) == Some(p) <==> p == |tokens| || tokens[p].tagged
  {
  }

  /** reset_to_offset: line by line to the first Event line at or behind the offset. */
  method SeekToOffset(tokens: seq<Token>, p: nat) returns (r: Result<nat>)
    requires p <= |tokens|
    ensures r == match ResumePoint(tokens, p) case None => Err(IoFailure) case Some(q) => Ok(q)
  {
    var q := p;
    while q < |tokens| && !tokens[q].tagged
      invariant p <= q <= |tokens| && FirstTagged(tokens, p) == FirstTagged(tokens, q)
    {
      q := q + 1;
    }
    return if q == |tokens| && 0 < p < |tokens| then Err(IoFailure) else Ok(q);
  }

  /**
   * An entry without an Event line is lost when an import resumes at it: read in one pass the file stores the game, read up to it and
   * then from its offset on it does not.
   */
  lemma UntaggedIsSkipped(h: MoveHash, a: PreparedGame, b: PreparedGame, c: PreparedGame)
    requires !SameGame(h, a, b) && !SameGame(h, b, c) && !SameGame(h, a, c)
    ensures
      var tokens := [Valid(a, true), Valid(b, false), Valid(c, true)];
      && ResumePoint(tokens, 1) == Some(2)
      && Checked(h, [], ValidGames(tokens)) == [a, b, c] && Checked(h, [], ValidGames(tokens[..1] + tokens[2..])) == [a, c]
  {
    hide SameGame, Checked, ValidGames;
    var tokens := [Valid(a, true), Valid(b, false), Valid(c, true)];
    assert FirstTagged(tokens, 2) == 2;
    TwoGames(a, true, b, false);
    TwoGames(a, true, c, true);
    assert tokens == [Valid(a, true), Valid(b, false)] + [Valid(c, true)];
    OneMoreGame([Valid(a, true), Valid(b, false)], c, true);
    assert tokens[..1] + tokens[2..] == [Valid(a, true), Valid(c, true)];
    assert ValidGames(tokens) == [a, b] + [c] == [a, b, c];
    CheckedOfDistinct(h, [a, b, c]);
    CheckedOfDistinct(h, [a, c]);
  }

  lemma OneMoreGame(tokens: seq<Token>, g: PreparedGame, tagged: bool)
    ensures ValidGames(tokens + [Valid(g, tagged)]) == ValidGames(tokens) + [g]
  {
    assert (tokens + [Valid(g, tagged)])[..|tokens|] == tokens;
  }

  lemma TwoGames(a: PreparedGame, taggedA: bool, b: PreparedGame, taggedB: bool)
    ensures ValidGames([Valid(a, taggedA), Valid(b, taggedB)]) == [a, b]
  {
    OneMoreGame([], a, taggedA);
    OneMoreGame([Valid(a, taggedA)], b, taggedB);
    assert [] + [Valid(a, taggedA)] == [Valid(a, taggedA)];
    assert [Valid(a, taggedA)] + [Valid(b, taggedB)] == [Valid(a, taggedA), Valid(b, taggedB)];
  }

  lemma {:induction false} CheckedOfDistinct(h: MoveHash, gs: seq<Game>)
    requires forall i, j :: 0 <= i < j < |gs| ==> !SameGame(h, gs[i], gs[j])
    ensures Checked(h, [], gs) == gs
  {
    hide SameGame;
    if gs != [] {
      var front := gs[..|gs| - 1];
      assert forall i :: 0 <= i < |front| ==> front[i] == gs[i];
      CheckedOfDistinct(h, front);
      assert !Contains(h, front, gs[|gs| - 1]);
      assert gs == front + [gs[|gs| - 1]];
    }
  }

  function ValidGames(tokens: seq<Token>): seq<Game> {
    if tokens == [] then []
    else ValidGames(tokens[..|tokens| - 1]) + if tokens[|tokens| - 1].Valid? then [tokens[|tokens| - 1].game] else []
  }

  datatype Outcome = Completed | Stopped | Failed(error: ErrorCode)

  /** An import in the context of one file and the reconciled table it first started from. */
  datatype Source = Source(h: MoveHash, base: seq<Row>, tokens: seq<Token>)

  /** The games a table stands for are the checked import of the file up to some position. */
  predicate Covers(s: Source, table: seq<Row>, position: nat) {
    && position <= |s.tokens| && IdsAscend(table)
    && Dedup(s.h, Games(table)) == Checked(s.h, Games(s.base), ValidGames(s.tokens[..position]))
  }

  /** What holds of committed state and checkpoint at every moment, in particular wherever a crash may strike. */
  predicate Durable(s: Source, table: seq<Row>, hasIndex: bool, checkpoint: Option<Checkpoint>, position: nat) {
    && Covers(s, table, position) && TableOk(s.h, s.base)
    && (hasIndex ==> TableOk(s.h, table))
    && (checkpoint.Some? ==> checkpoint.value.position <= position)
  }

  lemma {:induction false} ValidGamesContain(tokens: seq<Token>, p: nat, n: nat) returns (i: nat)
    requires p < n <= |tokens| && tokens[p].Valid?
    ensures i < |ValidGames(tokens[..n])| && ValidGames(tokens[..n])[i] == tokens[p].game
    decreases n
  {
    assert tokens[..n][..n - 1] == tokens[..n - 1];
    if p < n - 1 {
      i := ValidGamesContain(tokens, p, n - 1);
    } else {
      i := |ValidGames(tokens[..n - 1])|;
    }
  }

  function Later(a: nat, b: nat): nat { if a < b then b else a }

  /** Processing the token at or below what is covered covers one more token at most, and changes nothing below. */
  lemma TokenStep(s: Source, covered: nat, p: nat)
    requires p <= covered <= |s.tokens| && p < |s.tokens|
    ensures
      var before := Checked(s.h, Games(s.base), ValidGames(s.tokens[..covered]));
      var after := Checked(s.h, Games(s.base), ValidGames(s.tokens[..Later(covered, p + 1)]));
      after == if s.tokens[p].Valid? then Inserted(s.h, before, s.tokens[p].game) else before
  {
    hide Contains;
    if p < covered {
      if s.tokens[p].Valid? {
        var i := ValidGamesContain(s.tokens, p, covered);
        CheckedContains(s.h, Games(s.base), ValidGames(s.tokens[..covered]), i);
      }
    } else {
      assert s.tokens[..p + 1][..p] == s.tokens[..p];
      var front := ValidGames(s.tokens[..p]);
      if s.tokens[p].Valid? {
        assert (front + [s.tokens[p].game])[..|front|] == front;
      } else {
        assert front + [] == front;
      }
    }
  }

  lemma RawStep(s: Source, table: seq<Row>, covered: nat, p: nat)
    requires Covers(s, table, covered) && p <= covered && p < |s.tokens| && s.tokens[p].Valid?
    ensures Covers(s, table + [Row(NextId(table), s.tokens[p].game, 0)], Later(covered, p + 1))
  {
    hide Dedup, Checked, IdsAscend;
    TokenStep(s, covered, p);
    AppendedRow(s.h, table, s.tokens[p].game, 0);
    DedupOfAppend(s.h, Games(table), s.tokens[p].game);
  }

  lemma SkipStep(s: Source, table: seq<Row>, covered: nat, p: nat)
    requires Covers(s, table, covered) && p <= covered && p < |s.tokens|
    requires s.tokens[p].Malformed? || (TableOk(s.h, table) && Contains(s.h, Games(table), s.tokens[p].game))
    ensures Covers(s, table, Later(covered, p + 1))
  {
    hide Dedup, Checked, IdsAscend, Contains;
    TokenStep(s, covered, p);
    if s.tokens[p].Valid? {
      DedupOfFree(s.h, Games(table));
    }
  }

  lemma CheckedStep(s: Source, table: seq<Row>, covered: nat, p: nat)
    requires Covers(s, table, covered) && TableOk(s.h, table) && p <= covered && p < |s.tokens|
    requires s.tokens[p].Valid? && !Contains(s.h, Games(table), s.tokens[p].game)
    ensures
      var g := s.tokens[p].game;
      var table' := table + [Row(NextId(table), g, NextCollision(s.h, table, g))];
      Covers(s, table', Later(covered, p + 1)) && TableOk(s.h, table')
  {
    hide Dedup, Checked, IdsAscend, Contains, DuplicateFree, CollisionsOk, NextCollision;
    var g := s.tokens[p].game;
    TokenStep(s, covered, p);
    DedupOfFree(s.h, Games(table));
    NextCollisionCounts(s.h, table, g);
    AppendedRow(s.h, table, g, NextCollision(s.h, table, g));
    AppendIsFree(s.h, Games(table), g);
    DedupOfFree(s.h, Games(table) + [g]);
  }

  lemma ReconciledCovers(s: Source, table: seq<Row>, covered: nat)
    requires Covers(s, table, covered)
    ensures Covers(s, Reconciled(s.h, table), covered) && TableOk(s.h, Reconciled(s.h, table))
  {
    hide Dedup, Checked, Reconciled, CollisionsOk;
    ReconciledIsOk(s.h, table);
    DedupOfFree(s.h, Games(Reconciled(s.h, table)));
  }

  lemma {:induction false} ValidGamesStorable(tokens: seq<Token>)
    ensures forall i :: 0 <= i < |ValidGames(tokens)| ==> Storable(ValidGames(tokens)[i])
    ensures StorableGames(ValidGames(tokens)) == ValidGames(tokens)
  {
    if tokens != [] {
      ValidGamesStorable(tokens[..|tokens| - 1]);
    }
    AllStorable(ValidGames(tokens));
  }

  /** A reconciled table that covers the whole file holds the rows of one pass of checked inserts, up to ids. */
  ghost predicate IsCheckedImport(s: Source, table: seq<Row>) {
    var rows := InsertAll(s.h, s.base, ValidGames(s.tokens));
    && FirstCopies(Games(table), Games(s.base) + ValidGames(s.tokens)) && Numbered(s.h, table)
    && TableOk(s.h, table) && |table| == |rows|
    && forall i :: 0 <= i < |rows| ==> table[i].game == rows[i].game && table[i].collision == rows[i].collision
  }

  lemma WholeFileCovered(s: Source, table: seq<Row>)
    requires TableOk(s.h, s.base) && TableOk(s.h, table) && Covers(s, table, |s.tokens|)
    ensures IsCheckedImport(s, table)
  {
    hide Dedup, Checked, CollisionsOk, DuplicateFree, InsertAll, IdsAscend, FirstCopies, Numbered;
    RawThenDedup(s.h, Games(s.base), ValidGames(s.tokens));
    DedupOfFree(s.h, Games(s.base));
    DedupIsFirstCopies(s.h, Games(s.base) + ValidGames(s.tokens));
    NumberedIs(s.h, table);
    assert s.tokens[..|s.tokens|] == s.tokens;
    DedupOfFree(s.h, Games(table));
    ValidGamesStorable(s.tokens);
    InsertAllIs(s.h, s.base, ValidGames(s.tokens));
    SameCollisions(s.h, table, InsertAll(s.h, s.base, ValidGames(s.tokens)));
  }

  /** The progress variables of run_from. */
  datatype Progress = Progress(position: nat, checkpointPosition: nat, committed: int, batchPending: nat, stopped: bool)

  // The last stage as a function.

  /** What can go wrong while an entry is processed, and whether a stop request is seen after its batch. */
  datatype Faults = Faults(insert: bool, commit: bool, begin: bool, save: bool, stop: bool)

  /** A fault that rolls games back. */
  predicate Lossy(f: Faults) {
    f.insert || f.commit
  }

  /** What the last stage works on: the committed table, the open transaction's view of it, and the saved checkpoint. */
  datatype Line = Line(table: seq<Row>, open: Option<seq<Row>>, saved: Option<Checkpoint>, p: Progress, fatal: bool)

  function View(st: Line): seq<Row> {
    if st.open.Some? then st.open.value else st.table
  }

  /** The table with the game inserted; none for a duplicate. */
  function WithGame(h: MoveHash, raw: bool, table: seq<Row>, g: Game): Option<seq<Row>> {
    if raw then Some(table + [Row(NextId(table), g, 0)])
    else if Contains(h, Games(table), g) then None
    else Some(table + [Row(NextId(table), g, NextCollision(h, table, g))])
  }

  /** A full batch: commit, checkpoint, and the next transaction unless the import is to stop. */
  function EndBatch(st: Line, f: Faults): Line {
    if st.open.Some? && f.commit then st.(open := None, fatal := true)
    else
      var table, p := View(st), st.p.(batchPending := 0, stopped := st.p.stopped || f.stop);
      var saved := if f.save then st.saved else Some(Checkpoint(p.checkpointPosition, p.committed));
      if p.stopped then Line(table, None, saved, p, st.fatal)
      else if f.begin then Line(table, None, saved, p, true)
      else Line(table, Some(table), saved, p, st.fatal)
  }

  lemma NothingToCommit(st: Line, f: Faults)
    ensures st.open.None? ==> EndBatch(st, f).table == st.table
  {
  }

  /** Outside a transaction every insert commits at once. */
  function WithView(st: Line, table: seq<Row>, p: Progress): Line {
    if st.open.Some? then st.(open := Some(table), p := p) else st.(table := table, p := p)
  }

  /** stage2 for one entry. */
  function Stage2(h: MoveHash, raw: bool, batchSize: nat, st: Line, token: Token, f: Faults): Line {
    var p := st.p.(position := st.p.position + 1);
    if token.Malformed? then st.(p := p)
    else if f.insert then st.(open := None, p := p, fatal := true)
    else
      var more := WithGame(h, raw, View(st), token.game);
      if more.None? then st.(p := p)
      else
        var q := p.(checkpointPosition := p.position, committed := p.committed + 1, batchPending := p.batchPending + 1);
        if q.batchPending < batchSize then WithView(st, more.value, q) else EndBatch(WithView(st, more.value, q), f)
  }

  /** Committed table and checkpoint are in order. */
  predicate DurableLine(s: Source, raw: bool, st: Line, covered: nat) {
    && Covers(s, st.table, covered) && (st.saved.Some? ==> st.saved.value.position <= covered)
    && (!raw ==> TableOk(s.h, st.table))
  }

  /** The transaction's view is ahead of, or equal to, the committed table, and covers what has been processed. */
  predicate LineOk(s: Source, raw: bool, st: Line, covered: nat, ahead: nat) {
    && DurableLine(s, raw, st, covered)
    && st.p.checkpointPosition <= st.p.position <= ahead && covered <= ahead && Covers(s, View(st), ahead)
    && (!raw ==> TableOk(s.h, View(st)))
    && (st.open.None? ==> covered == ahead)
  }

  lemma BeginsOk(s: Source, raw: bool, table: seq<Row>, saved: Option<Checkpoint>, p: Progress, covered: nat)
    requires DurableLine(s, raw, Line(table, None, saved, p, false), covered) && p.checkpointPosition <= p.position <= covered
    ensures LineOk(s, raw, Line(table, Some(table), saved, p, false), covered, covered)
  {
    hide Covers, TableOk;
  }

  lemma GameInserted(s: Source, raw: bool, table: seq<Row>, ahead: nat, p: nat)
    requires Covers(s, table, ahead) && (!raw ==> TableOk(s.h, table)) && p <= ahead && p < |s.tokens| && s.tokens[p].Valid?
    ensures
      var more := WithGame(s.h, raw, table, s.tokens[p].game);
      && (more.None? ==> Covers(s, table, Later(ahead, p + 1)))
      && (more.Some? ==> Covers(s, more.value, Later(ahead, p + 1)) && (!raw ==> TableOk(s.h, more.value)))
  {
    hide Covers, TableOk, Contains, NextCollision;
    var g := s.tokens[p].game;
    if raw {
      RawStep(s, table, ahead, p);
    } else if Contains(s.h, Games(table), g) {
      SkipStep(s, table, ahead, p);
    } else {
      CheckedStep(s, table, ahead, p);
    }
  }

  lemma BatchEndKeeps(s: Source, raw: bool, st: Line, f: Faults, covered: nat, ahead: nat) returns (covered': nat)
    requires LineOk(s, raw, st, covered, ahead)
    ensures covered <= covered' && DurableLine(s, raw, EndBatch(st, f), covered')
    ensures !(f.commit && EndBatch(st, f).fatal) ==> LineOk(s, raw, EndBatch(st, f), covered', ahead)
  {
    hide Covers, TableOk;
    covered' := if st.open.Some? && f.commit then covered else ahead;
  }

  /** Whatever goes wrong, the checkpoint stays truthful; and unless games were rolled back the import can go on. */
  lemma Stage2Keeps(s: Source, raw: bool, batchSize: nat, st: Line, f: Faults, covered: nat, ahead: nat) returns (covered': nat, ahead': nat)
    requires LineOk(s, raw, st, covered, ahead) && st.p.position < |s.tokens|
    ensures
      var next := Stage2(s.h, raw, batchSize, st, s.tokens[st.p.position], f);
      && covered <= covered' && DurableLine(s, raw, next, covered')
      && (!(Lossy(f) && next.fatal) ==> LineOk(s, raw, next, covered', ahead'))
  {
    hide Covers, TableOk, WithGame, EndBatch;
    var token := s.tokens[st.p.position];
    var next := Stage2(s.h, raw, batchSize, st, token, f);
    ahead' := Later(ahead, st.p.position + 1);
    covered' := if st.open.Some? then covered else ahead';
    if token.Malformed? {
      SkipStep(s, View(st), ahead, st.p.position);
    } else if f.insert {
      covered' := covered;
    } else {
      GameInserted(s, raw, View(st), ahead, st.p.position);
      var more := WithGame(s.h, raw, View(st), token.game);
      if more.Some? {
        var p := st.p.position + 1;
        var after := WithView(st, more.value, st.p.(position := p, checkpointPosition := p, committed := st.p.committed + 1, batchPending := st.p.batchPending + 1));
        assert LineOk(s, raw, after, covered', ahead');
        if after.p.batchPending >= batchSize {
          covered' := BatchEndKeeps(s, raw, after, f, covered', ahead');
        }
      }
    }
  }

  class ImportPipeline {
    const storage: Storage
    const writer: GameWriter
    const source: Source
    const batchSize: nat
    const lines: nat     // pipeline slots, and with them how many entries can be in flight
    const faulty: bool   // whether inserts and batch commits may fail
    ghost var covered: nat  // how much of the file the committed table covers

    /** Durable state is in order; nothing is said about the memory of a crashed process. */
    ghost predicate Valid()
      reads this, storage, writer
    {
      && writer.storage == storage && writer.h == source.h && AllTagged(source.tokens)
      && Durable(source, storage.table, storage.hasIndex, storage.checkpoint, covered)
    }

    ghost function Now(p: Progress, fatal: bool): Line
      reads this, storage, writer
    {
      Line(storage.table, if writer.inTransaction then Some(writer.working) else None, storage.checkpoint, p, fatal)
    }

    /** The last stage can take the next entry. */
    ghost predicate Working(rawMode: bool, p: Progress, fatal: bool, ahead: nat)
      reads this, storage, writer
    {
      !storage.Crashed() ==> LineOk(source, rawMode, Now(p, fatal), covered, ahead) && storage.hasIndex == !rawMode
    }

    constructor (storage: Storage, source: Source, batchSize: nat, lines: nat, faulty: bool, ghost covered: nat)
      requires AllTagged(source.tokens) && Durable(source, storage.table, storage.hasIndex, storage.checkpoint, covered)
      ensures Valid() && this.storage == storage && this.source == source && fresh(writer) && !writer.inTransaction
      ensures this.covered == covered && this.lines == lines && this.faulty == faulty && this.batchSize == batchSize
    {
      this.storage, this.source, this.batchSize, this.lines, this.faulty := storage, source, batchSize, lines, faulty;
      this.covered := covered;
      writer := new GameWriter(storage, source.h);
    }

    /** What a crash may leave of a step: the old table, or the new one with the old or the new checkpoint. */
    twostate predicate Reached(next: Line)
      reads storage
    {
      && storage.steps <= old(storage.steps) && storage.hasIndex == old(storage.hasIndex)
      && (old(storage.Crashed()) ==> storage.table == old(storage.table) && storage.checkpoint == old(storage.checkpoint))
      && (storage.table == old(storage.table) || storage.table == next.table)
      && (storage.checkpoint == old(storage.checkpoint) || (storage.checkpoint == next.saved && storage.table == next.table))
    }

    /** The statements at the end of a batch come to the function. */
    method FinishBatch(p: Progress, fatal: bool, f: Faults) returns (q: Progress, failed: bool)
      requires writer.storage == storage
      modifies writer, storage`table, storage`hasIndex, storage`checkpoint, storage`steps
      ensures Reached(EndBatch(old(Now(p, fatal)), f))
      ensures !storage.Crashed() ==> Now(q, failed) == EndBatch(old(Now(p, fatal)), f)
      ensures q.position == p.position && q.checkpointPosition == p.checkpointPosition
      ensures (fatal ==> failed) && (p.stopped ==> q.stopped)
    {
      q, failed := p, fatal;
      var ok := writer.Commit(f.commit);
      if !ok {
        writer.Rollback();
        return q, true;
      }
      storage.WriteCheckpoint(Checkpoint(p.checkpointPosition, p.committed), f.save);
      q := p.(batchPending := 0, stopped := p.stopped || f.stop);
      if q.stopped {
        return;
      }
      if f.begin {
        return q, true;
      }
      writer.Begin();
    }

    /** The insert, in the open transaction or in one of its own. */
    method InsertGame(rawMode: bool, g: PreparedGame) returns (r: Result<nat>)
      requires writer.storage == storage && writer.h == source.h
      requires rawMode && !storage.Crashed() ==> !storage.hasIndex
      modifies writer`working, storage`table, storage`hasIndex, storage`steps
      ensures storage.steps <= old(storage.steps) && storage.hasIndex == old(storage.hasIndex)
      ensures
        var table := old(writer.Table());
        var more := WithGame(source.h, rawMode, table, g);
        && (!storage.Crashed() ==> writer.Table() == if more.Some? then more.value else table)
        && (storage.table == old(storage.table) || (!writer.inTransaction && more.Some? && storage.table == more.value))
        && (writer.inTransaction || old(storage.Crashed()) || r.Err? ==> storage.table == old(storage.table))
        && (!storage.Crashed() ==> (r.Ok? <==> more.Some?) && (r.Err? ==> r == Err(Duplicate)))
    {
      hide Contains, NextCollision, Clashes;
      if rawMode {
        r := writer.InsertRaw(g);
      } else {
        r := writer.Insert(g);
      }
    }

    /** The statements of stage2 for one entry come to the function. */
    method Step(rawMode: bool, p: Progress, fatal: bool, f: Faults) returns (q: Progress, failed: bool)
      requires writer.storage == storage && writer.h == source.h && p.position < |source.tokens|
      requires rawMode && !storage.Crashed() ==> !storage.hasIndex
      modifies writer, storage`table, storage`hasIndex, storage`checkpoint, storage`steps
      ensures Reached(Stage2(source.h, rawMode, batchSize, old(Now(p, fatal)), source.tokens[p.position], f))
      ensures !storage.Crashed() ==> Now(q, failed) == Stage2(source.h, rawMode, batchSize, old(Now(p, fatal)), source.tokens[p.position], f)
      ensures q.position == p.position + 1 && (p.checkpointPosition <= p.position ==> q.checkpointPosition <= q.position)
      ensures (fatal ==> failed) && (p.stopped ==> q.stopped)
    {
      hide WithGame, EndBatch;
      ghost var before := Now(p, fatal);
      q, failed := p.(position := p.position + 1), fatal;
      if source.tokens[p.position].Malformed? {
        return;
      }
      var g := source.tokens[p.position].game;
      if f.insert {
        writer.Rollback();
        return q, true;
      }
      var r := InsertGame(rawMode, g);
      if r == Err(Duplicate) {
        return;
      }
      if r.Err? {
        writer.Rollback();
        return q, true;
      }
      q := q.(checkpointPosition := q.position, committed := p.committed + 1, batchPending := p.batchPending + 1);
      if q.batchPending < batchSize {
        return;
      }
      ghost var more := WithGame(source.h, rawMode, View(before), g);
      if more.Some? {
        NothingToCommit(WithView(before, more.value, q), f);
      }
      q, failed := FinishBatch(q, fatal, f);
    }

    /** One entry keeps the durable state in order, whatever fails; unless games were rolled back the import can go on. */
    method ProcessToken(rawMode: bool, p: Progress, fatal: bool, f: Faults, ghost ahead: nat) returns (q: Progress, failed: bool, ghost ahead': nat)
      requires Valid() && Working(rawMode, p, fatal, ahead) && p.checkpointPosition <= p.position < |source.tokens|
      modifies `covered, writer, storage`table, storage`hasIndex, storage`checkpoint, storage`steps
      ensures Valid() && storage.steps <= old(storage.steps)
      ensures !(Lossy(f) && failed) ==> Working(rawMode, q, failed, ahead')
      ensures q.checkpointPosition <= q.position == p.position + 1 && (fatal ==> failed) && (p.stopped ==> q.stopped)
    {
      hide Covers, TableOk, Stage2;
      ghost var alive, before := !storage.Crashed(), Now(p, fatal);
      ghost var next := Stage2(source.h, rawMode, batchSize, before, source.tokens[p.position], f);
      ghost var covered' := covered;
      ahead' := ahead;
      if alive {
        covered', ahead' := Stage2Keeps(source, rawMode, batchSize, before, f, covered, ahead);
      }
      q, failed := Step(rawMode, p, fatal, f);
      if alive && storage.table == next.table {
        covered := covered';
      }
    }

    /**
     * The pipeline: entries go through in file order until the end of the file, a stop request, or a failure; then only entries already
     * in flight get through. With one slot there are none, so that nothing follows games that were rolled back.
     */
    method Ingest(rawMode: bool, start: Progress, ghost ahead: nat) returns (q: Progress, failed: bool, ghost ahead': nat)
      requires Valid() && Working(rawMode, start, false, ahead) && start.checkpointPosition <= start.position <= |source.tokens|
      requires !start.stopped && lines > 0 && (faulty ==> lines == 1)
      modifies `covered, writer, storage`table, storage`hasIndex, storage`checkpoint, storage`steps
      ensures Valid() && storage.steps <= old(storage.steps) && q.checkpointPosition <= q.position <= |source.tokens|
      ensures !failed ==> Working(rawMode, q, false, ahead')
      ensures !failed && !q.stopped ==> q.position == |source.tokens|
    {
      hide Covers, TableOk, Durable;
      q, failed, ahead' := start, false, ahead;
      var left := lines;
      while q.position < |source.tokens| && left > 0
        invariant Valid() && storage.steps <= old(storage.steps)
        invariant left <= lines && (left < lines <==> failed || q.stopped)
        invariant Working(rawMode, q, failed, ahead') || (failed && left == 0)
        invariant q.checkpointPosition <= q.position <= |source.tokens|
        decreases |source.tokens| - q.position
      {
        // stage0 may see a stop request or a read error instead of an entry
        var stop: bool, readError: bool := *, *;
        if stop || readError {
          return q.(stopped := q.stopped || stop), failed || readError, ahead';
        }
        var f: Faults := *;
        f := f.(insert := f.insert && faulty, commit := f.commit && faulty);
        q, failed, ahead' := ProcessToken(rawMode, q, failed, f, ahead');
        if failed || q.stopped {
          left := left - 1;
        }
      }
    }

    /** The reconciliation at the end of a raw import and before a resumption; it may fail and change nothing. */
    method Reconcile() returns (removed: Option<nat>)
      requires Valid() && !writer.inTransaction
      modifies storage`table, storage`hasIndex, storage`steps
      ensures Valid() && storage.steps <= old(storage.steps)
      ensures removed.Some? && !storage.Crashed() ==> storage.hasIndex
    {
      hide Reconciled, TableOk;
      ReconciledCovers(source, storage.table, covered);
      removed := writer.Deduplicate();
    }

    /** commit_sqlite_batch after the last entry; a failure rolls back. */
    method CommitRest(rawMode: bool, p: Progress, fails: bool, ghost ahead: nat) returns (ok: bool)
      requires Valid() && Working(rawMode, p, false, ahead)
      modifies `covered, writer`inTransaction, storage`table, storage`hasIndex, storage`steps
      ensures Valid() && !writer.inTransaction && storage.steps <= old(storage.steps)
      ensures ok && !storage.Crashed() ==> p.checkpointPosition <= p.position <= covered && storage.hasIndex == !rawMode
    {
      hide Covers, TableOk;
      ghost var alive := !storage.Crashed();
      ok := writer.Commit(fails);
      if !ok {
        writer.Rollback();
      } else if alive {
        covered := ahead;
      }
    }

    /** write_progress_checkpoint, once everything before the checkpoint position is committed. */
    method SaveCheckpoint(p: Progress)
      requires Valid() && (!storage.Crashed() ==> p.checkpointPosition <= covered)
      modifies storage`checkpoint, storage`steps
      ensures Valid() && storage.steps <= old(storage.steps)
    {
      hide Covers, TableOk;
      var fails: bool := *;
      storage.WriteCheckpoint(Checkpoint(p.checkpointPosition, p.committed), fails);
    }

    /** The end of a run that failed: what a raw import left is reconciled if it can be. */
    method GiveUp(rawMode: bool) returns (outcome: Outcome)
      requires Valid()
      modifies writer`inTransaction, storage`table, storage`hasIndex, storage`steps
      ensures Valid() && !writer.inTransaction && storage.steps <= old(storage.steps) && outcome == Failed(IoFailure)
    {
      hide Covers, TableOk;
      writer.Rollback();
      if rawMode {
        var ignored := Reconcile();
      }
      return Failed(IoFailure);
    }

    /** run_from. */
    method RunFrom(start: nat, preCommitted: int) returns (outcome: Outcome)
      requires Valid() && !writer.inTransaction && (!storage.Crashed() ==> start <= covered && (preCommitted != 0 ==> storage.hasIndex))
      requires start <= |source.tokens| && (faulty ==> lines <= 1)
      modifies this, writer, storage
      ensures Valid() && !writer.inTransaction && storage.steps <= old(storage.steps)
      ensures outcome.Completed? && !storage.Crashed() ==> IsCheckedImport(source, storage.table) && storage.hasIndex
    {
      hide Covers, TableOk, IsCheckedImport, LineOk;
      if lines == 0 {
        return Failed(InvalidState);
      }
      ResumesExactly(source.tokens, start);
      var seek := SeekToOffset(source.tokens, start);
      if seek.Err? {
        return Failed(IoFailure);
      }
      var rawMode := preCommitted == 0;
      if rawMode {
        var dropped := writer.DropIdentityIndex();
        if !dropped {
          return Failed(IoFailure);
        }
      }
      var beginFails: bool, commitFails: bool := *, *;
      if beginFails {
        outcome := GiveUp(rawMode);
        return;
      }
      ghost var ahead := covered;
      writer.Begin();
      if !storage.Crashed() {
        BeginsOk(source, rawMode, storage.table, storage.checkpoint, Progress(seek.value, start, preCommitted, 0, false), covered);
      }
      var p, failed;
      p, failed, ahead := Ingest(rawMode, Progress(seek.value, start, preCommitted, 0, false), ahead);
      if failed {
        outcome := GiveUp(rawMode);
        return;
      }
      var committed := CommitRest(rawMode, p, commitFails, ahead);
      if !committed {
        outcome := GiveUp(rawMode);
        return;
      }
      if rawMode {
        var removed := Reconcile();
        if removed.None? {
          return Failed(IoFailure);
        }
        p := p.(committed := p.committed - removed.value);
      }
      var lateStop: bool := *;
      if p.stopped || lateStop {
        SaveCheckpoint(p);
        return Stopped;
      }
      var rebuilt: bool := *;  // the derived indexes, from the table as it now is
      if !rebuilt {
        return Failed(IoFailure);
      }
      if !storage.Crashed() {
        CoversBound(source, storage.table, covered);
        WholeFileCovered(source, storage.table);
      }
      storage.DeleteCheckpoint();
      return Completed;
    }

    /** resume_from_checkpoint: a missing index means unreconciled raw rows. */
    method ResumeFromCheckpoint(c: Checkpoint) returns (outcome: Outcome)
      requires Valid() && !writer.inTransaction && storage.checkpoint == Some(c) && (faulty ==> lines <= 1)
      modifies this, writer, storage
      ensures Valid() && !writer.inTransaction && storage.steps <= old(storage.steps)
      ensures outcome.Completed? && !storage.Crashed() ==> IsCheckedImport(source, storage.table) && storage.hasIndex
    {
      hide TableOk, IsCheckedImport, Dedup, Checked;
      var preCommitted := c.committed;
      if !storage.hasIndex {
        var repaired := Reconcile();
        if repaired.None? {
          return Failed(IoFailure);
        }
        preCommitted := |storage.table|;
      }
      outcome := RunFrom(c.position, preCommitted);
    }

    /** run: resumes from the checkpoint of this file, if there is one. */
    method Run() returns (outcome: Outcome)
      requires Valid() && !writer.inTransaction && (faulty ==> lines <= 1)
      modifies this, writer, storage
      ensures Valid() && !writer.inTransaction && storage.steps <= old(storage.steps)
      ensures outcome.Completed? && !storage.Crashed() ==> IsCheckedImport(source, storage.table) && storage.hasIndex
    {
      hide Covers, TableOk, IsCheckedImport;
      if storage.checkpoint.Some? {
        outcome := ResumeFromCheckpoint(storage.checkpoint.value);
      } else {
        outcome := RunFrom(0, 0);
      }
    }
  }

  /** What one process reports; only the report of a process that did not crash is seen. */
  datatype Report = Report(outcome: Outcome, table: seq<Row>)

  /**
   * An attempt: how many durable effects before the process dies, whether resume() rather than run() is called, how many slots the
   * pipeline has, and whether inserts and batch commits may fail.
   */
  datatype Attempt = Attempt(effects: nat, resume: bool, lines: nat, faulty: bool)

  /** No games are rolled back with others in flight. */
  predicate Careful(a: Attempt) {
    a.faulty ==> a.lines <= 1
  }

  /**
   * Any sequence of runs and resumptions of one file, cancelled or crashed anywhere, with any statement failing unless others are in
   * flight: every completed attempt leaves the rows of one pass of checked inserts, and at every end the table covers at least what the
   * checkpoint claims.
   */
  method Attempts(source: Source, attempts: seq<Attempt>, batchSize: nat) returns (storage: Storage, reports: seq<Report>, ghost covered: nat)
    requires TableOk(source.h, source.base) && AllTagged(source.tokens) && forall i :: 0 <= i < |attempts| ==> Careful(attempts[i])
    ensures Durable(source, storage.table, storage.hasIndex, storage.checkpoint, covered)
    ensures forall i :: 0 <= i < |reports| && reports[i].outcome.Completed? ==> IsCheckedImport(source, reports[i].table)
  {
    hide Covers, TableOk, IsCheckedImport;
    storage := new Storage(source.base);
    reports, covered := [], 0;
    NothingCovered(source);
    for k := 0 to |attempts|
      invariant fresh(storage) && Durable(source, storage.table, storage.hasIndex, storage.checkpoint, covered)
      invariant forall i :: 0 <= i < |reports| && reports[i].outcome.Completed? ==> IsCheckedImport(source, reports[i].table)
    {
      storage.Boot(attempts[k].effects);
      var pipeline := new ImportPipeline(storage, source, batchSize, attempts[k].lines, attempts[k].faulty, covered);
      var outcome := Failed(IoFailure);
      if !attempts[k].resume {
        outcome := pipeline.Run();
      } else if storage.checkpoint.Some? {
        outcome := pipeline.ResumeFromCheckpoint(storage.checkpoint.value);
      }
      covered := pipeline.covered;
      if !storage.Crashed() {
        reports := reports + [Report(outcome, storage.table)];
      }
    }
  }

  lemma CoversBound(s: Source, table: seq<Row>, position: nat)
    requires Covers(s, table, position)
    ensures position <= |s.tokens|
  {
  }

  lemma NothingCovered(s: Source)
    requires TableOk(s.h, s.base)
    ensures Covers(s, s.base, 0)
  {
    DedupOfFree(s.h, Games(s.base));
  }
}
