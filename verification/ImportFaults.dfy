/** Fresh imports whose statements fail: the checkpoint stays truthful whatever happens exactly with one pipeline slot. */
module ImportFaults {
  import opened Words
  import opened GameIdentity
  import opened GameWriter
  import opened ImportPipeline

  /** A raw import begins with an open transaction and no checkpoint. */
  function Start(s: Source): Line {
    Line(s.base, Some(s.base), None, Progress(0, 0, 0, 0, false), false)
  }

  /** The state after one entry per element. */
  function After(s: Source, batchSize: nat, fs: seq<Faults>): Line
    requires |fs| <= |s.tokens|
  {
    if fs == [] then Start(s)
    else
      var n := |fs| - 1;
      Stage2(s.h, true, batchSize, After(s, batchSize, fs[..n]), s.tokens[n], fs[n])
  }

  /** No further entry is read. */
  predicate Ended(st: Line) {
    st.fatal || st.p.stopped
  }

  /** Once reading has ended, only entries in flight get through: one per slot, less the entry that ended it. */
  ghost predicate Legal(s: Source, lines: nat, batchSize: nat, fs: seq<Faults>) {
    && |fs| <= |s.tokens|
    && forall k :: 0 <= k <= |fs| && Ended(After(s, batchSize, fs[..k])) ==> |fs| + 1 <= k + lines
  }

  /** Every valid game before the checkpoint is in the committed table. */
  ghost predicate Truthful(s: Source, st: Line) {
    st.saved.Some? ==>
      forall i :: 0 <= i < st.saved.value.position && i < |s.tokens| && s.tokens[i].Valid? ==> Contains(s.h, Games(st.table), s.tokens[i].game)
  }

  ghost predicate AlwaysTruthful(s: Source, lines: nat, batchSize: nat) {
    forall fs :: Legal(s, lines, batchSize, fs) ==> Truthful(s, After(s, batchSize, fs))
  }

  lemma {:induction false} AtPosition(s: Source, batchSize: nat, fs: seq<Faults>)
    requires |fs| <= |s.tokens|
    ensures After(s, batchSize, fs).p.position == |fs|
  {
    hide WithGame;
    if fs != [] {
      AtPosition(s, batchSize, fs[..|fs| - 1]);
    }
  }

  /** With one slot, or as long as nothing is rolled back, every state of the import is in order. */
  lemma {:induction false} StateInOrder(s: Source, lines: nat, batchSize: nat, fs: seq<Faults>, n: nat) returns (covered: nat, ahead: nat)
    requires TableOk(s.h, s.base) && Legal(s, lines, batchSize, fs) && n <= |fs|
    requires lines == 1 || forall i :: 0 <= i < |fs| ==> !Lossy(fs[i])
    ensures
      var st := After(s, batchSize, fs[..n]);
      DurableLine(s, true, st, covered) && (lines != 1 || !st.fatal ==> LineOk(s, true, st, covered, ahead))
    decreases n
  {
    hide Stage2, LineOk, DurableLine, TableOk;
    if n == 0 {
      covered, ahead := 0, 0;
      StartInOrder(s);
    } else {
      covered, ahead := StateInOrder(s, lines, batchSize, fs, n - 1);
      assert fs[..n][..n - 1] == fs[..n - 1];
      AtPosition(s, batchSize, fs[..n - 1]);
      assert lines == 1 ==> !Ended(After(s, batchSize, fs[..n - 1]));
      covered, ahead := Stage2Keeps(s, true, batchSize, After(s, batchSize, fs[..n - 1]), fs[n - 1], covered, ahead);
    }
  }

  lemma StartInOrder(s: Source)
    requires TableOk(s.h, s.base)
    ensures DurableLine(s, true, Start(s), 0) && LineOk(s, true, Start(s), 0, 0)
  {
    hide Covers, TableOk;
    NothingCovered(s);
  }

  lemma CoveredIsTruthful(s: Source, st: Line, covered: nat)
    requires DurableLine(s, true, st, covered)
    ensures Truthful(s, st)
  {
    hide Contains, Dedup, Checked;
    if st.saved.Some? {
      forall i | 0 <= i < st.saved.value.position && i < |s.tokens| && s.tokens[i].Valid?
        ensures Contains(s.h, Games(st.table), s.tokens[i].game)
      {
        var k := ValidGamesContain(s.tokens, i, covered);
        CheckedContains(s.h, Games(s.base), ValidGames(s.tokens[..covered]), k);
        DedupContains(s.h, Games(st.table), s.tokens[i].game);
      }
    }
  }

  lemma TruthfulRun(s: Source, lines: nat, batchSize: nat, fs: seq<Faults>)
    requires TableOk(s.h, s.base) && Legal(s, lines, batchSize, fs)
    requires lines == 1 || forall i :: 0 <= i < |fs| ==> !Lossy(fs[i])
    ensures Truthful(s, After(s, batchSize, fs))
  {
    hide DurableLine, LineOk, Truthful, After;
    var covered, ahead := StateInOrder(s, lines, batchSize, fs, |fs|);
    assert fs[..|fs|] == fs;
    CoveredIsTruthful(s, After(s, batchSize, fs), covered);
  }

  // A batch that is lost.

  /** How many games fill a batch. */
  function BatchLength(batchSize: nat): nat {
    if batchSize == 0 then 1 else batchSize
  }

  /** The file goes on behind a first batch of games, the first of them neither stored nor repeated right behind the batch. */
  predicate FillsBatch(s: Source, batchSize: nat) {
    var n := BatchLength(batchSize);
    && n < |s.tokens| && (forall i :: 0 <= i <= n ==> s.tokens[i].Valid?)
    && !Contains(s.h, Games(s.base), s.tokens[0].game) && !SameGame(s.h, s.tokens[n].game, s.tokens[0].game)
  }

  /** Only the commit of the first batch fails. */
  function CommitFails(n: nat): (fs: seq<Faults>)
    ensures |fs| == n + 1
  {
    seq(n + 1, i => Faults(false, i + 1 == n, false, false, false))
  }

  lemma {:induction false} BatchFills(s: Source, batchSize: nat, k: nat)
    requires FillsBatch(s, batchSize) && k < BatchLength(batchSize)
    ensures
      var st := After(s, batchSize, CommitFails(BatchLength(batchSize))[..k]);
      st.table == s.base && st.open.Some? && st.saved.None? && !st.fatal && st.p == Progress(k, k, k, k, false)
  {
    if k > 0 {
      hide Contains, SameGame, EndBatch;
      var fs := CommitFails(BatchLength(batchSize));
      BatchFills(s, batchSize, k - 1);
      assert fs[..k][..k - 1] == fs[..k - 1];
    }
  }

  lemma FullBatchFails(s: Source, batchSize: nat)
    requires FillsBatch(s, batchSize)
    ensures
      var n := BatchLength(batchSize);
      After(s, batchSize, CommitFails(n)[..n]) == Line(s.base, None, None, Progress(n, n, n, n, false), true)
  {
    hide Contains, SameGame;
    var n := BatchLength(batchSize);
    var fs := CommitFails(n);
    BatchFills(s, batchSize, n - 1);
    assert fs[..n][..n - 1] == fs[..n - 1];
  }

  lemma NextInFlight(s: Source, batchSize: nat, n: nat, f: Faults)
    requires n == BatchLength(batchSize) < |s.tokens| && s.tokens[n].Valid? && f == Faults(false, false, false, false, false)
    ensures
      var st := Stage2(s.h, true, batchSize, Line(s.base, None, None, Progress(n, n, n, n, false), true), s.tokens[n], f);
      st.saved == Some(Checkpoint(n + 1, n + 1)) && st.fatal && Games(st.table) == Games(s.base) + [s.tokens[n].game]
  {
    AppendedRow(s.h, s.base, s.tokens[n].game, 0);
  }

  /** The commit of a full batch fails, an entry in flight is inserted on its own, and the checkpoint written behind it covers the lost batch. */
  lemma BatchIsLost(s: Source, lines: nat, batchSize: nat)
    requires FillsBatch(s, batchSize) && lines >= 2
    ensures
      var n := BatchLength(batchSize);
      var st := After(s, batchSize, CommitFails(n));
      && Legal(s, lines, batchSize, CommitFails(n))
      && st.saved == Some(Checkpoint(n + 1, n + 1)) && Games(st.table) == Games(s.base) + [s.tokens[n].game]
      && !Truthful(s, st)
  {
    hide SameGame, Contains, Stage2;
    var n := BatchLength(batchSize);
    var fs := CommitFails(n);
    FullBatchFails(s, batchSize);
    NextInFlight(s, batchSize, n, fs[n]);
    ContainsAppends(s.h, Games(s.base), s.tokens[n].game, s.tokens[0].game);
    hide After;
    forall k | 0 <= k <= |fs| && Ended(After(s, batchSize, fs[..k]))
      ensures |fs| + 1 <= k + lines
    {
      if k < n {
        BatchFills(s, batchSize, k);
      }
    }
  }

  /** For every file with games behind its first batch: checkpoints stay truthful through all failures exactly with one slot. */
  lemma SlotsDecide(s: Source, lines: nat, batchSize: nat)
    requires TableOk(s.h, s.base) && FillsBatch(s, batchSize) && lines > 0
    ensures AlwaysTruthful(s, lines, batchSize) <==> lines == 1
  {
    hide Truthful, After, TableOk, FillsBatch;
    if lines == 1 {
      forall fs | Legal(s, lines, batchSize, fs)
        ensures Truthful(s, After(s, batchSize, fs))
      {
        TruthfulRun(s, lines, batchSize, fs);
      }
    } else {
      BatchIsLost(s, lines, batchSize);
    }
  }
}
