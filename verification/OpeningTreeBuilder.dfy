/** Building the opening tree: one replay per game into three external aggregations, then the merge-join. */
module OpeningTreeBuilder {
  import opened Words
  import opened SortedRuns
  import opened Aggregation
  import opened Chess
  import opened OpeningStats
  import opened OpeningTreeFile
  import opened OpeningTreeWriter
  import opened OpeningTree

  /** A set of hashes, each counted once. */
  function Mark(hashes: set<nat>, key: Triple): Option<nat> {
    if key == HashKey(key.first) && key.first in hashes then Some(1) else None
  }

  /** A game's contributions to the listed edges. */
  function Ply(keys: set<Triple>, edges: map<Triple, nat>, g: StoredGame, key: Triple): Option<Agg> {
    if key in keys && key in edges then Some(GameAgg(g, edges[key])) else None
  }

  ghost predicate RootsCollected(rules: Rules, cap: nat, g: StoredGame, k: nat, roots: set<nat>)
    requires k <= |g.moves|
  {
    forall h :: h in roots <==> ReachesBy(rules, g, h, Min(cap, k))
  }

  ghost predicate VisitsCollected(rules: Rules, g: StoredGame, k: nat, visited: set<nat>)
    requires k <= |g.moves|
  {
    forall h :: h in visited <==> ReachesBy(rules, g, h, k)
  }

  ghost predicate EdgesCollected(rules: Rules, cap: nat, g: StoredGame, k: nat, edges: map<Triple, nat>)
    requires k <= |g.moves|
  {
    forall key :: (if key in edges then Some(edges[key]) else None) == FirstPly(rules, cap, g, key, k)
  }

  /** The sets a game's replay collects up to its k-th position. */
  ghost predicate Collected(rules: Rules, cap: nat, g: StoredGame, k: nat, roots: set<nat>, visited: set<nat>, edges: map<Triple, nat>) {
    k <= |g.moves| && RootsCollected(rules, cap, g, k, roots) && VisitsCollected(rules, g, k, visited) && EdgesCollected(rules, cap, g, k, edges)
  }

  lemma ReachesMore(rules: Rules, g: StoredGame, h: nat, k: nat)
    requires k < |g.moves|
    ensures ReachesBy(rules, g, h, k + 1) <==> ReachesBy(rules, g, h, k) || HashAt(rules, g, k + 1) == h
  {
    hide HashAfter;
    if ReachesBy(rules, g, h, k + 1) && HashAt(rules, g, k + 1) != h {
      var p: nat :| p <= k + 1 && HashAt(rules, g, p) == h;
      assert p <= k;
    }
  }

  lemma CollectedAtStart(rules: Rules, cap: nat, g: StoredGame)
    ensures Collected(rules, cap, g, 0, {StartHash(rules)}, {StartHash(rules)}, map[])
  {
    assert g.moves[..0] == [];
    assert HashAt(rules, g, 0) == StartHash(rules);
    hide HashAfter;
  }

  lemma RootsStep(rules: Rules, cap: nat, g: StoredGame, k: nat, roots: set<nat>)
    requires k < |g.moves| && RootsCollected(rules, cap, g, k, roots)
    ensures RootsCollected(rules, cap, g, k + 1, if k + 1 <= cap then roots + {HashAt(rules, g, k + 1)} else roots)
  {
    hide HashAfter, ReachesBy;
    if k + 1 <= cap {
      forall h
        ensures ReachesBy(rules, g, h, k + 1) <==> ReachesBy(rules, g, h, k) || HashAt(rules, g, k + 1) == h
      {
        ReachesMore(rules, g, h, k);
      }
    }
  }

  lemma VisitsStep(rules: Rules, g: StoredGame, k: nat, visited: set<nat>)
    requires k < |g.moves| && VisitsCollected(rules, g, k, visited)
    ensures VisitsCollected(rules, g, k + 1, visited + {HashAt(rules, g, k + 1)})
  {
    hide HashAfter, ReachesBy;
    forall h
      ensures ReachesBy(rules, g, h, k + 1) <==> ReachesBy(rules, g, h, k) || HashAt(rules, g, k + 1) == h
    {
      ReachesMore(rules, g, h, k);
    }
  }

  lemma EdgesStep(rules: Rules, cap: nat, g: StoredGame, k: nat, edges: map<Triple, nat>)
    requires k < |g.moves| && EdgesCollected(rules, cap, g, k, edges)
    ensures EdgesCollected(rules, cap, g, k + 1, if Covered(rules, cap, g, k) && EdgeKey(rules, g, k) !in edges then edges[EdgeKey(rules, g, k) := k] else edges)
  {
    hide HashAfter;
  }

  /** One ply of the replay: try_emplace keeps the first ply of an edge. */
  lemma CollectedStep(rules: Rules, cap: nat, g: StoredGame, k: nat, roots: set<nat>, visited: set<nat>, edges: map<Triple, nat>)
    requires Collected(rules, cap, g, k, roots, visited, edges) && k < |g.moves|
    ensures
      var prev, child := HashAt(rules, g, k), HashAt(rules, g, k + 1);
      var key := Triple(prev, g.moves[k], child);
      Collected(rules, cap, g, k + 1,
                if k + 1 <= cap then roots + {child} else roots, visited + {child},
                if (k <= cap || prev == StartHash(rules)) && key !in edges then edges[key := k] else edges)
  {
    hide HashAfter, ReachesBy, RootsCollected, VisitsCollected, EdgesCollected;
    RootsStep(rules, cap, g, k, roots);
    VisitsStep(rules, g, k, visited);
    EdgesStep(rules, cap, g, k, edges);
  }

  datatype Scratch = Scratch(roots: set<nat>, visited: set<nat>, edges: map<Triple, nat>)

  class OpeningTreeBuilder {
    const rules: Rules
    const maxRootPly: nat
    const threshold: nat
    const memoryLimit: nat
    const childCounts: Option<seq<(nat, nat)>>  // the external count stream, if there is one

    const roots: ExternalAggregation<nat>
    const edges: ExternalAggregation<Agg>
    const visits: ExternalAggregation<nat>
    var sourceGameCount: nat
    var failure: Option<ErrorCode>
    var finalized: bool
    var file: Option<TreeFile>  // the file at the index's path

    ghost var games: seq<StoredGame>  // the games accumulated

    ghost predicate Separate()
      reads this
    {
      && roots != visits && roots.add == Plus && visits.add == Plus && edges.add == Add
    }

    ghost predicate Valid()
      reads this, roots, edges, visits
    {
      && Separate() && roots.Valid() && edges.Valid() && visits.Valid()
      && sourceGameCount == |games|
      && (failure.None? ==> Totals())
    }

    /** The three aggregations hold the naive totals of the games so far. */
    ghost predicate Totals()
      reads this, roots, edges, visits
    {
      && (forall key :: roots.Sum(key) == RootTotal(rules, maxRootPly, games, key))
      && (forall key :: edges.Sum(key) == NaiveEdge(rules, maxRootPly, games, key))
      && (childCounts.None? ==> forall key :: visits.Sum(key) == VisitTotal(rules, games, key))
    }

    constructor (rules: Rules, maxRootPly: nat, threshold: nat, memoryLimit: nat, childCounts: Option<seq<(nat, nat)>>, file: Option<TreeFile>)
      ensures Valid() && fresh(roots) && fresh(edges) && fresh(visits)
      ensures games == [] && failure.None? && !finalized && this.file == file
      ensures this.rules == rules && this.maxRootPly == maxRootPly && this.threshold == threshold
      ensures this.memoryLimit == memoryLimit && this.childCounts == childCounts
    {
      AddIsLawful();
      this.rules, this.maxRootPly, this.threshold, this.memoryLimit := rules, maxRootPly, threshold, memoryLimit;
      this.childCounts, this.file := childCounts, file;
      roots := new ExternalAggregation<nat>(Plus, threshold);
      edges := new ExternalAggregation<Agg>(Add, threshold);
      visits := new ExternalAggregation<nat>(Plus, threshold);
      sourceGameCount, failure, finalized, games := 0, None, false, [];
    }

    /** The replay half of accumulate_game; every first visit goes to the visit counter at once. */
    method Replay(g: StoredGame) returns (r: Result<Scratch>)
      requires Separate() && visits.Valid()
      modifies visits
      ensures visits.Valid()
      ensures r.Ok? <==> |g.moves| <= U16_MAX + 1
      ensures r.Err? ==> r == Err(IoFailure)
      ensures r.Ok? ==> Collected(rules, maxRootPly, g, |g.moves|, r.value.roots, r.value.visited, r.value.edges)
      ensures r.Ok? && childCounts.None? ==> forall key :: visits.Sum(key) == Both(Plus, old(visits.Sum(key)), Mark(r.value.visited, key))
    {
      hide Collected, ExternalAggregation.Sum, ExternalAggregation.Valid, HashAfter, After, Mark;
      var board := rules.start;
      var prevHash := (rules.hash)(board);
      StartPosition(rules, g);
      var roots: set<nat>, visited: set<nat>, edges: map<Triple, nat> := {prevHash}, {prevHash}, map[];
      if childCounts.None? {
        visits.Add(HashKey(prevHash), 1);
      }
      CollectedAtStart(rules, maxRootPly, g);
      FirstMark(prevHash);
      for ply := 0 to |g.moves|
        invariant visits.Valid() && ply <= U16_MAX + 1
        invariant board == After(rules, g.moves[..ply]) && prevHash == HashAt(rules, g, ply)
        invariant Collected(rules, maxRootPly, g, ply, roots, visited, edges)
        invariant childCounts.None? ==> forall key :: visits.Sum(key) == Both(Plus, old(visits.Sum(key)), Mark(visited, key))
      {
        if ply > U16_MAX {
          return Err(IoFailure);
        }
        NextPosition(rules, g, ply);
        CollectedStep(rules, maxRootPly, g, ply, roots, visited, edges);
        board := (rules.step)(board, g.moves[ply]);
        var childHash := (rules.hash)(board);
        if childCounts.None? && childHash !in visited {
          visits.Add(HashKey(childHash), 1);
          forall key
            ensures Both(Plus, Both(Plus, old(visits.Sum(key)), Mark(visited, key)), At(Keyed(HashKey(childHash), 1), key))
                 == Both(Plus, old(visits.Sum(key)), Mark(visited + {childHash}, key))
          {
            MarkMore(old(visits.Sum(key)), visited, childHash, key);
          }
        }
        SameMark(visited, childHash);
        visited := visited + {childHash};
        if ply <= maxRootPly || prevHash == StartHash(rules) {
          var key := Triple(prevHash, g.moves[ply], childHash);
          if key !in edges {
            edges := edges[key := ply];
          }
        }
        if ply + 1 <= maxRootPly {
          roots := roots + {childHash};
        }
        prevHash := childHash;
      }
      assert g.moves[..|g.moves|] == g.moves;
      return Ok(Scratch(roots, visited, edges));
    }

    /** The second half: each root and each edge of the game is added once, in any order. */
    method AddRoots(hashes: set<nat>)
      requires Separate() && roots.Valid()
      modifies roots
      ensures roots.Valid() && forall key :: roots.Sum(key) == Both(Plus, old(roots.Sum(key)), Mark(hashes, key))
    {
      hide ExternalAggregation.Sum, ExternalAggregation.Valid, Both, Mark;
      var rest, added := hashes, {};
      forall key
        ensures roots.Sum(key) == Both(Plus, roots.Sum(key), Mark({}, key))
      {
        MarkNothing(roots.Sum(key), key);
      }
      while rest != {}
        invariant roots.Valid() && rest + added == hashes && rest !! added
        invariant forall key :: roots.Sum(key) == Both(Plus, old(roots.Sum(key)), Mark(added, key))
        decreases |rest|
      {
        var hash :| hash in rest;
        roots.Add(HashKey(hash), 1);
        forall key
          ensures Both(Plus, Both(Plus, old(roots.Sum(key)), Mark(added, key)), At(Keyed(HashKey(hash), 1), key))
               == Both(Plus, old(roots.Sum(key)), Mark(added + {hash}, key))
        {
          MarkMore(old(roots.Sum(key)), added, hash, key);
        }
        rest, added := rest - {hash}, added + {hash};
      }
      assert added == hashes;
    }

    method AddEdges(plies: map<Triple, nat>, g: StoredGame)
      requires Separate() && edges.Valid()
      modifies edges
      ensures edges.Valid() && forall key :: edges.Sum(key) == Both(Add, old(edges.Sum(key)), Ply(plies.Keys, plies, g, key))
    {
      hide ExternalAggregation.Sum, ExternalAggregation.Valid, Both, Ply, GameAgg;
      var rest, added := plies.Keys, {};
      forall key
        ensures edges.Sum(key) == Both(Add, edges.Sum(key), Ply({}, plies, g, key))
      {
        PlyNothing(edges.Sum(key), plies, g, key);
      }
      while rest != {}
        invariant edges.Valid() && rest + added == plies.Keys && rest !! added
        invariant forall key :: edges.Sum(key) == Both(Add, old(edges.Sum(key)), Ply(added, plies, g, key))
        decreases |rest|
      {
        var edge :| edge in rest;
        var agg := GameRecord(g, plies[edge]);
        edges.Add(edge, agg);
        forall key
          ensures Both(Add, Both(Add, old(edges.Sum(key)), Ply(added, plies, g, key)), At(Keyed(edge, agg), key))
               == Both(Add, old(edges.Sum(key)), Ply(added + {edge}, plies, g, key))
        {
          PlyMore(old(edges.Sum(key)), added, plies, g, edge, key);
        }
        rest, added := rest - {edge}, added + {edge};
      }
      assert added == plies.Keys;
    }

    /** accumulate: an unusable builder refuses; a game too long makes the builder unusable. */
    method Accumulate(g: StoredGame) returns (r: Result<()>)
      requires Valid()
      modifies this, roots, edges, visits
      ensures Valid() && finalized == old(finalized) && file == old(file)
      ensures r.Ok? <==> old(failure).None? && !finalized && threshold > 0 && |g.moves| <= U16_MAX + 1
      ensures games == old(games) + if r.Ok? then [g] else []
      ensures failure == if old(failure).None? && !finalized && threshold > 0 && r.Err? then Some(IoFailure) else old(failure)
      ensures r.Err? ==> r.error == if old(failure).Some? then old(failure).value else if finalized || threshold == 0 then InvalidArgument else IoFailure
    {
      hide Collected, ExternalAggregation.Sum, ExternalAggregation.Valid, Both, Mark, Ply, RootTotal, VisitTotal, NaiveEdge;
      assert games + [] == games;
      if failure.Some? {
        return Err(failure.value);
      }
      if finalized || threshold == 0 {
        return Err(InvalidArgument);
      }
      var scratch := Replay(g);
      if scratch.Err? {
        failure := Some(scratch.error);
        return Err(scratch.error);
      }
      AddRoots(scratch.value.roots);
      AddEdges(scratch.value.edges, g);
      forall key
        ensures Both(Plus, RootTotal(rules, maxRootPly, games, key), Mark(scratch.value.roots, key)) == RootTotal(rules, maxRootPly, games + [g], key)
        ensures Both(Plus, VisitTotal(rules, games, key), Mark(scratch.value.visited, key)) == VisitTotal(rules, games + [g], key)
        ensures Both(Add, NaiveEdge(rules, maxRootPly, games, key), Ply(scratch.value.edges.Keys, scratch.value.edges, g, key)) == NaiveEdge(rules, maxRootPly, games + [g], key)
      {
        GameCounts(rules, maxRootPly, games, g, scratch.value, key);
      }
      games := games + [g];
      sourceGameCount := sourceGameCount + 1;
      return Ok(());
    }

    /** finalize: merges the three aggregations and writes the file; only a complete file replaces the old one. */
    method Finalize() returns (r: Result<()>, ghost nodes: seq<Node>)
      requires Valid()
      modifies this, roots, edges, visits
      ensures Separate() && roots.Valid() && edges.Valid() && visits.Valid() && games == old(games)
      ensures r.Ok? ==> !old(finalized) && failure.None?
      ensures file == if r.Ok? then Some(FileOf(nodes, maxRootPly, |games|)) else old(file)
      ensures r.Ok? && childCounts.None? ==> BuiltNodes(nodes, rules, maxRootPly, games)
      ensures r.Ok? && childCounts.Some? && StreamVisits(childCounts.value, rules, games) ==> BuiltNodes(nodes, rules, maxRootPly, games)
      ensures !old(finalized) && old(failure).None? && childCounts.None? ==> r.Ok?
      ensures !old(finalized) && old(failure).None? && childCounts.Some? && StreamVisits(childCounts.value, rules, games) ==> r.Ok?
    {
      hide ExternalAggregation.Sum, ExternalAggregation.Valid, RootTotal, VisitTotal, NaiveEdge, Total, Merged, CountsVisits, CountsOk;
      hide RunSorted, AllAttachable, EdgesRooted, RootsOk, TreeNodes, StreamOk, CountsOf, FileOf, StartHash, StreamVisits;
      nodes := [];
      if finalized {
        return Err(InvalidArgument), [];
      }
      if failure.Some? {
        return Err(failure.value), [];
      }
      finalized := true;
      var mergedRoots := roots.Merge();
      var mergedEdges := edges.Merge();
      MergedFrom(mergedRoots, mergedEdges, rules, maxRootPly, games);
      MergedIsRooted(mergedRoots, mergedEdges, rules, maxRootPly, games);
      var counts: seq<Keyed<nat>>;
      if childCounts.Some? {
        var materialized := MaterializeCounts(childCounts.value);
        if StreamVisits(childCounts.value, rules, games) {
          StreamIsVisits(childCounts.value, rules, games);
        }
        if materialized.Err? {
          return Err(materialized.error), [];
        }
        counts := materialized.value;
      } else {
        counts := visits.Merge();
        CountsFrom(counts, rules, games);
        CountsAreOk(counts, rules, games);
      }
      if CountsVisits(counts, rules, games) {
        MergedIsAttachable(mergedRoots, mergedEdges, counts, rules, maxRootPly, games);
      }
      var written := WriteIndex(mergedRoots, mergedEdges, counts, memoryLimit, maxRootPly, sourceGameCount, StartHash(rules));
      if written.Err? {
        return Err(written.error), [];
      }
      nodes := TreeNodes(mergedRoots, mergedEdges, counts, StartHash(rules));
      file := Some(written.value);
      if CountsVisits(counts, rules, games) {
        IsBuilt(mergedRoots, mergedEdges, counts, rules, maxRootPly, games);
      }
      return Ok(()), nodes;
    }
  }

  /** The nodes written for a set of games. */
  ghost predicate BuiltNodes(nodes: seq<Node>, rules: Rules, cap: nat, games: seq<StoredGame>) {
    exists roots, edges, counts ::
      Merged(roots, edges, rules, cap, games) && CountsVisits(counts, rules, games) && nodes == TreeNodes(roots, edges, counts, StartHash(rules))
  }

  lemma IsBuilt(roots: seq<Keyed<nat>>, edges: seq<Keyed<Agg>>, counts: seq<Keyed<nat>>, rules: Rules, cap: nat, games: seq<StoredGame>)
    requires Merged(roots, edges, rules, cap, games) && CountsVisits(counts, rules, games)
    ensures BuiltNodes(TreeNodes(roots, edges, counts, StartHash(rules)), rules, cap, games)
  {
    hide Merged, CountsVisits, TreeNodes, StartHash;
  }

  /** An external stream with the true visit counts. */
  ghost predicate StreamVisits(stream: seq<(nat, nat)>, rules: Rules, games: seq<StoredGame>) {
    StreamOk(stream) && CountsVisits(CountsOf(stream), rules, games)
  }

  lemma StreamIsVisits(stream: seq<(nat, nat)>, rules: Rules, games: seq<StoredGame>)
    requires StreamVisits(stream, rules, games)
    ensures StreamOk(stream) && CountsVisits(CountsOf(stream), rules, games)
  {
  }

  lemma MergedFrom(roots: seq<Keyed<nat>>, edges: seq<Keyed<Agg>>, rules: Rules, cap: nat, games: seq<StoredGame>)
    requires RunSorted(roots) && (forall key :: Total(Plus, roots, key) == RootTotal(rules, cap, games, key))
    requires RunSorted(edges) && (forall key :: Total(Add, edges, key) == NaiveEdge(rules, cap, games, key))
    ensures Merged(roots, edges, rules, cap, games)
  {
  }

  lemma CountsFrom(counts: seq<Keyed<nat>>, rules: Rules, games: seq<StoredGame>)
    requires RunSorted(counts) && (forall key :: Total(Plus, counts, key) == VisitTotal(rules, games, key))
    ensures CountsVisits(counts, rules, games)
  {
  }

  /** The file is the same for every spill threshold, memory limit, and source of child counts. */
  lemma TreeIsDetermined(a: seq<Node>, b: seq<Node>, rules: Rules, cap: nat, games: seq<StoredGame>)
    requires BuiltNodes(a, rules, cap, games) && BuiltNodes(b, rules, cap, games)
    ensures a == b
  {
    hide Merged, CountsVisits, TreeNodes, StartHash;
    var roots, edges, counts :| Merged(roots, edges, rules, cap, games) && CountsVisits(counts, rules, games)
                                && a == TreeNodes(roots, edges, counts, StartHash(rules));
    var roots', edges', counts' :| Merged(roots', edges', rules, cap, games) && CountsVisits(counts', rules, games)
                                   && b == TreeNodes(roots', edges', counts', StartHash(rules));
    MergedIsUnique(roots, edges, counts, roots', edges', counts', rules, cap, games);
  }

  lemma StartPosition(rules: Rules, g: StoredGame)
    ensures After(rules, g.moves[..0]) == rules.start && HashAt(rules, g, 0) == StartHash(rules) == (rules.hash)(rules.start)
  {
    assert g.moves[..0] == [];
  }

  lemma NextPosition(rules: Rules, g: StoredGame, ply: nat)
    requires ply < |g.moves|
    ensures After(rules, g.moves[..ply + 1]) == (rules.step)(After(rules, g.moves[..ply]), g.moves[ply])
    ensures HashAt(rules, g, ply + 1) == (rules.hash)(After(rules, g.moves[..ply + 1]))
  {
    AfterStep(rules, g.moves, ply);
  }

  lemma FirstMark(hash: nat)
    ensures forall key :: Mark({hash}, key) == At(Keyed(HashKey(hash), 1), key)
  {
  }

  lemma MarkNothing(base: Option<nat>, key: Triple)
    ensures Both(Plus, base, Mark({}, key)) == base
  {
  }

  lemma MarkMore(base: Option<nat>, hashes: set<nat>, hash: nat, key: Triple)
    requires hash !in hashes
    ensures Both(Plus, Both(Plus, base, Mark(hashes, key)), At(Keyed(HashKey(hash), 1), key)) == Both(Plus, base, Mark(hashes + {hash}, key))
  {
  }

  lemma SameMark(hashes: set<nat>, hash: nat)
    ensures hash in hashes ==> hashes + {hash} == hashes
  {
  }

  lemma PlyNothing(base: Option<Agg>, plies: map<Triple, nat>, g: StoredGame, key: Triple)
    ensures Both(Add, base, Ply({}, plies, g, key)) == base
  {
  }

  lemma PlyMore(base: Option<Agg>, keys: set<Triple>, plies: map<Triple, nat>, g: StoredGame, edge: Triple, key: Triple)
    requires edge !in keys && edge in plies
    ensures Both(Add, Both(Add, base, Ply(keys, plies, g, key)), At(Keyed(edge, GameAgg(g, plies[edge])), key))
         == Both(Add, base, Ply(keys + {edge}, plies, g, key))
  {
    hide GameAgg;
  }

  /** The edge record of one game: note_result and note_elo on an empty aggregate. */
  method GameRecord(g: StoredGame, ply: nat) returns (agg: Agg)
    ensures agg == GameAgg(g, ply)
  {
    agg := Agg(ply, 1, 0, 0, 0, 0, 0, 0, 0, 0, 0, g.id, g.id);
    if g.result > 0 {
      agg := agg.(whiteWins := agg.whiteWins + 1);
    } else if g.result < 0 {
      agg := agg.(blackWins := agg.blackWins + 1);
    } else {
      agg := agg.(draws := agg.draws + 1);
    }
    if g.whiteElo.Some? {
      agg := agg.(whiteEloSum := agg.whiteEloSum + g.whiteElo.value, whiteEloCount := agg.whiteEloCount + 1);
    }
    if g.blackElo.Some? {
      agg := agg.(blackEloSum := agg.blackEloSum + g.blackElo.value, blackEloCount := agg.blackEloCount + 1);
    }
    if g.whiteElo.Some? && g.blackElo.Some? {
      var doubled := g.whiteElo.value + g.blackElo.value;
      agg := agg.(weightedContrib := agg.weightedContrib + g.result * doubled, eloWeight := agg.eloWeight + doubled);
    }
  }

  /** What one replayed game adds to each total. */
  lemma GameCounts(rules: Rules, cap: nat, games: seq<StoredGame>, g: StoredGame, s: Scratch, key: Triple)
    requires Collected(rules, cap, g, |g.moves|, s.roots, s.visited, s.edges)
    ensures Both(Plus, RootTotal(rules, cap, games, key), Mark(s.roots, key)) == RootTotal(rules, cap, games + [g], key)
    ensures Both(Plus, VisitTotal(rules, games, key), Mark(s.visited, key)) == VisitTotal(rules, games + [g], key)
    ensures Both(Add, NaiveEdge(rules, cap, games, key), Ply(s.edges.Keys, s.edges, g, key)) == NaiveEdge(rules, cap, games + [g], key)
  {
    hide HashAfter, ReachesBy, FirstPly, GameAgg;
    assert (games + [g])[..|games|] == games;
  }

  /** The tree file of a set of games. */
  ghost predicate IndexesTree(file: TreeFile, rules: Rules, cap: nat, games: seq<StoredGame>) {
    exists nodes :: BuiltNodes(nodes, rules, cap, games) && file == FileOf(nodes, cap, |games|)
  }

  lemma IsTree(nodes: seq<Node>, rules: Rules, cap: nat, games: seq<StoredGame>)
    requires BuiltNodes(nodes, rules, cap, games)
    ensures IndexesTree(FileOf(nodes, cap, |games|), rules, cap, games)
  {
    hide BuiltNodes, FileOf;
  }

  /** build: accumulates every game and finalizes; with the true visit counts, from either source, the result is the tree of the games. */
  method BuildTree(rules: Rules, games: seq<StoredGame>, cap: nat, threshold: nat, memoryLimit: nat, childCounts: Option<seq<(nat, nat)>>)
    returns (r: Result<TreeFile>)
    ensures childCounts.Some? && StreamVisits(childCounts.value, rules, games) && r.Ok? ==> IndexesTree(r.value, rules, cap, games)
    ensures childCounts.None? && r.Ok? ==> IndexesTree(r.value, rules, cap, games)
    ensures (childCounts.None? || StreamVisits(childCounts.value, rules, games)) && ShortGames(games) && threshold > 0 ==> r.Ok?
  {
    hide BuiltNodes, FileOf, StreamVisits, IndexesTree;
    var builder := new OpeningTreeBuilder(rules, cap, threshold, memoryLimit, childCounts, None);
    for k := 0 to |games|
      invariant builder.Valid() && fresh(builder) && fresh(builder.roots) && fresh(builder.edges) && fresh(builder.visits)
      invariant builder.games == games[..k] && builder.failure.None? && !builder.finalized && builder.file.None?
    {
      var accumulated := builder.Accumulate(games[k]);
      if accumulated.Err? {
        return Err(accumulated.error);
      }
      assert games[..k + 1] == games[..k] + [games[k]];
    }
    assert games[..|games|] == games;
    var finalized, nodes := builder.Finalize();
    if finalized.Err? {
      return Err(finalized.error);
    }
    if BuiltNodes(nodes, rules, cap, games) {
      IsTree(nodes, rules, cap, games);
    }
    return Ok(builder.file.value);
  }
}
