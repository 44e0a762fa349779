/** What the merged streams mean: every edge has its root and its count, and the nodes hold the naive statistics of all games. */
module OpeningTree {
  import opened Words
  import opened SortedRuns
  import opened Aggregation
  import opened Chess
  import opened OpeningStats
  import opened OpeningMeaning
  import opened OpeningTreeFile
  import opened OpeningTreeWriter

  ghost function RootTotal(rules: Rules, cap: nat, games: seq<StoredGame>, key: Triple): Option<nat> {
    if key == HashKey(key.first) then Positive(RootCount(rules, cap, games, key.first)) else None
  }

  ghost function VisitTotal(rules: Rules, games: seq<StoredGame>, key: Triple): Option<nat> {
    if key == HashKey(key.first) then Positive(VisitCount(rules, games, key.first)) else None
  }

  /** The three merged aggregates of a set of games. */
  ghost predicate Merged(roots: seq<Keyed<nat>>, edges: seq<Keyed<Agg>>, rules: Rules, cap: nat, games: seq<StoredGame>) {
    && RunSorted(roots) && (forall key :: Total(Plus, roots, key) == RootTotal(rules, cap, games, key))
    && RunSorted(edges) && (forall key :: Total(Add, edges, key) == NaiveEdge(rules, cap, games, key))
  }

  ghost predicate CountsVisits(counts: seq<Keyed<nat>>, rules: Rules, games: seq<StoredGame>) {
    RunSorted(counts) && forall key :: Total(Plus, counts, key) == VisitTotal(rules, games, key)
  }

  lemma RootAt(roots: seq<Keyed<nat>>, edges: seq<Keyed<Agg>>, rules: Rules, cap: nat, games: seq<StoredGame>, i: nat)
    requires Merged(roots, edges, rules, cap, games) && i < |roots|
    ensures roots[i].key == HashKey(roots[i].key.first)
    ensures roots[i].value == RootCount(rules, cap, games, roots[i].key.first) > 0
  {
    hide RootCount, NaiveEdge;
    SortedTotal(Plus, roots, roots[i].key);
  }

  lemma EdgeAt(roots: seq<Keyed<nat>>, edges: seq<Keyed<Agg>>, rules: Rules, cap: nat, games: seq<StoredGame>, j: nat)
    requires Merged(roots, edges, rules, cap, games) && j < |edges|
    ensures NaiveEdge(rules, cap, games, edges[j].key) == Some(edges[j].value)
  {
    hide RootCount, NaiveEdge, RootTotal;
    SortedTotal(Add, edges, edges[j].key);
  }

  lemma CountsAreOk(counts: seq<Keyed<nat>>, rules: Rules, games: seq<StoredGame>)
    requires CountsVisits(counts, rules, games)
    ensures CountsOk(counts) && forall hash :: CountOf(counts, hash) == Positive(VisitCount(rules, games, hash))
  {
    hide VisitCount;
    forall i | 0 <= i < |counts|
      ensures counts[i].value > 0 && counts[i].key == HashKey(counts[i].key.first)
    {
      SortedTotal(Plus, counts, counts[i].key);
    }
  }

  /** An edge that some game contributes has a root and a child that some game visits. */
  lemma {:induction false} EdgeEndsOccur(rules: Rules, cap: nat, games: seq<StoredGame>, key: Triple)
    requires NaiveEdge(rules, cap, games, key).Some?
    ensures RootCount(rules, cap, games, key.first) > 0 && VisitCount(rules, games, key.third) > 0
  {
    hide FirstPly, After, HashAfter, ReachesBy, GameAgg;
    var front, last := games[..|games| - 1], games[|games| - 1];
    if Contribution(rules, cap, last, key).Some? {
      FirstPlyCovered(rules, cap, last, key);
    } else {
      EdgeEndsOccur(rules, cap, front, key);
    }
  }

  /** The merge-join needs no edge to be dropped: every edge starts at a merged root, and its child has a count. */
  lemma MergedIsRooted(roots: seq<Keyed<nat>>, edges: seq<Keyed<Agg>>, rules: Rules, cap: nat, games: seq<StoredGame>)
    requires Merged(roots, edges, rules, cap, games)
    ensures EdgesRooted(edges, roots) && RootsOk(roots)
  {
    hide RootCount, NaiveEdge, VisitCount;
    forall j | 0 <= j < |edges|
      ensures IsRoot(roots, edges[j].key.first)
    {
      EdgeAt(roots, edges, rules, cap, games, j);
      EdgeEndsOccur(rules, cap, games, edges[j].key);
      var root := HashKey(edges[j].key.first);
      assert Total(Plus, roots, root) == RootTotal(rules, cap, games, root);
      SortedTotal(Plus, roots, root);
      var i :| 0 <= i < |roots| && roots[i] == Keyed(root, Total(Plus, roots, root).value);
      assert roots[i].key.first == edges[j].key.first;
    }
    forall i | 0 <= i < |roots|
      ensures roots[i].key == HashKey(roots[i].key.first)
    {
      RootAt(roots, edges, rules, cap, games, i);
    }
  }

  lemma MergedIsAttachable(roots: seq<Keyed<nat>>, edges: seq<Keyed<Agg>>, counts: seq<Keyed<nat>>, rules: Rules, cap: nat, games: seq<StoredGame>)
    requires Merged(roots, edges, rules, cap, games) && CountsVisits(counts, rules, games)
    ensures AllAttachable(edges, counts)
  {
    hide RootCount, NaiveEdge, VisitCount, Merged, CountsVisits, CountOf;
    CountsAreOk(counts, rules, games);
    forall j | 0 <= j < |edges|
      ensures Attachable(edges[j], counts)
    {
      EdgeAt(roots, edges, rules, cap, games, j);
      EdgeEndsOccur(rules, cap, games, edges[j].key);
      EdgeFrequency(rules, cap, games, edges[j].key);
    }
  }

  // The continuations of one root.

  lemma {:induction false} EdgesFromAre(edges: seq<Keyed<Agg>>, root: nat)
    requires RunSorted(edges)
    ensures RunSorted(EdgesFrom(edges, root))
    ensures forall e :: e in EdgesFrom(edges, root) <==> e in edges && e.key.first == root
  {
    if edges != [] {
      var front, last := edges[..|edges| - 1], edges[|edges| - 1];
      EdgesFromAre(front, root);
      assert edges == front + [last];
      var before := EdgesFrom(front, root);
      forall i | 0 <= i < |before|
        ensures Less(before[i].key, last.key)
      {
        assert before[i] in front;
        var j :| 0 <= j < |front| && front[j] == before[i];
        assert edges[j] == before[i];
      }
    }
  }

  lemma EdgeIn(roots: seq<Keyed<nat>>, edges: seq<Keyed<Agg>>, rules: Rules, cap: nat, games: seq<StoredGame>, e: Keyed<Agg>)
    requires Merged(roots, edges, rules, cap, games)
    ensures e in edges <==> NaiveEdge(rules, cap, games, e.key) == Some(e.value)
  {
    hide NaiveEdge, RootTotal;
    assert Total(Add, edges, e.key) == NaiveEdge(rules, cap, games, e.key);
    SortedTotal(Add, edges, e.key);
  }

  lemma MergedRuns(roots: seq<Keyed<nat>>, edges: seq<Keyed<Agg>>, rules: Rules, cap: nat, games: seq<StoredGame>)
    requires Merged(roots, edges, rules, cap, games)
    ensures RunSorted(roots) && RunSorted(edges)
  {
  }

  // The statistics of a node.

  /** The rows of a node, or none for a missing one, are the naive statistics under the depth cap. */
  lemma NodeStats(roots: seq<Keyed<nat>>, edges: seq<Keyed<Agg>>, counts: seq<Keyed<nat>>, rules: Rules, cap: nat,
                  games: seq<StoredGame>, hash: nat)
    requires Merged(roots, edges, rules, cap, games) && CountsVisits(counts, rules, games)
    ensures
      var node := FindNode(TreeNodes(roots, edges, counts, StartHash(rules)), hash);
      IsStats(if node.Some? then RowsOfNode(node.value) else [], rules, cap, games, hash)
    ensures ValidStore(games) && AllElosOk(games) ==>
      var node := FindNode(TreeNodes(roots, edges, counts, StartHash(rules)), hash);
      && StatsOfPlay(if node.Some? then RowsOfNode(node.value) else [], rules, Some(cap), games, games, hash)
      && (node.Some? ==> node.value.gameCount == |RootGames(rules, cap, games, hash)| && (node.value.complete <==> hash == StartHash(rules)))
  {
    hide CountsVisits, RootCount, NaiveEdge, VisitCount, TreeNode, FindNode, HashAfter, Total, StatsOfPlay, RootGames, ValidStore, AllElosOk;
    var nodes := TreeNodes(roots, edges, counts, StartHash(rules));
    FindNodeFinds(nodes, hash);
    var node := FindNode(nodes, hash);
    if node.Some? {
      var i :| 0 <= i < |nodes| && nodes[i] == node.value;
      NodeOfRoot(roots[i], edges, counts, StartHash(rules));
      RootAt(roots, edges, rules, cap, games, i);
      ContinuationStats(roots, edges, counts, rules, cap, games, hash, node.value);
    } else {
      forall move: nat, child: nat
        ensures NaiveEdge(rules, cap, games, Triple(hash, move, child)).None?
      {
        if NaiveEdge(rules, cap, games, Triple(hash, move, child)).Some? {
          EdgeEndsOccur(rules, cap, games, Triple(hash, move, child));
          RootTotalIs(roots, rules, cap, games, edges, hash);
          var i :| 0 <= i < |roots| && roots[i].key.first == hash;
          NodeAtRoot(roots, edges, counts, StartHash(rules), i);
          assert false;
        }
      }
    }
    if ValidStore(games) && AllElosOk(games) {
      StatsAreMeant(if node.Some? then RowsOfNode(node.value) else [], rules, cap, games, games, hash);
      RootsCount(rules, cap, games, hash);
    }
  }

  lemma RootTotalIs(roots: seq<Keyed<nat>>, rules: Rules, cap: nat, games: seq<StoredGame>, edges: seq<Keyed<Agg>>, hash: nat)
    requires Merged(roots, edges, rules, cap, games) && RootCount(rules, cap, games, hash) > 0
    ensures exists i :: 0 <= i < |roots| && roots[i].key.first == hash
  {
    hide RootCount, NaiveEdge;
    assert Total(Plus, roots, HashKey(hash)) == RootTotal(rules, cap, games, HashKey(hash));
    SortedTotal(Plus, roots, HashKey(hash));
    var i :| 0 <= i < |roots| && roots[i] == Keyed(HashKey(hash), Total(Plus, roots, HashKey(hash)).value);
    assert roots[i].key.first == hash;
  }

  lemma NodeOfRoot(root: Keyed<nat>, edges: seq<Keyed<Agg>>, counts: seq<Keyed<nat>>, start: nat)
    ensures TreeNode(root, edges, counts, start).hash == root.key.first
    ensures TreeNode(root, edges, counts, start).gameCount == root.value
    ensures TreeNode(root, edges, counts, start).complete <==> root.key.first == start
    ensures TreeNode(root, edges, counts, start).continuations == Continuations(EdgesFrom(edges, root.key.first), counts)
  {
  }

  lemma NodeAtRoot(roots: seq<Keyed<nat>>, edges: seq<Keyed<Agg>>, counts: seq<Keyed<nat>>, start: nat, i: nat)
    requires i < |roots|
    ensures TreeNodes(roots, edges, counts, start)[i].hash == roots[i].key.first
  {
  }

  lemma ContinuationStats(roots: seq<Keyed<nat>>, edges: seq<Keyed<Agg>>, counts: seq<Keyed<nat>>, rules: Rules, cap: nat,
                          games: seq<StoredGame>, hash: nat, node: Node)
    requires Merged(roots, edges, rules, cap, games) && CountsVisits(counts, rules, games)
    requires node.continuations == Continuations(EdgesFrom(edges, hash), counts)
    ensures IsStats(RowsOfNode(node), rules, cap, games, hash)
  {
    hide CountsVisits, Merged, RootCount, NaiveEdge, VisitCount, EdgesFrom, CountOf;
    var rows, es := RowsOfNode(node), EdgesFrom(edges, hash);
    MergedRuns(roots, edges, rules, cap, games);
    EdgesFromAre(edges, hash);
    CountsAreOk(counts, rules, games);
    forall i | 0 <= i < |rows|
      ensures RowKey(hash, rows[i]) == es[i].key
      ensures
        var edge := NaiveEdge(rules, cap, games, RowKey(hash, rows[i]));
        edge.Some? && rows[i] == RowOf(RowKey(hash, rows[i]), edge.value, VisitCount(rules, games, rows[i].child))
    {
      assert es[i] in edges && es[i].key.first == hash;
      assert rows[i] == RowOf(es[i].key, es[i].value, FrequencyOf(counts, es[i].key.third));
      EdgeIn(roots, edges, rules, cap, games, es[i]);
    }
    forall move: nat, child: nat | NaiveEdge(rules, cap, games, Triple(hash, move, child)).Some?
      ensures exists i :: 0 <= i < |rows| && RowKey(hash, rows[i]) == Triple(hash, move, child)
    {
      var e := Keyed(Triple(hash, move, child), NaiveEdge(rules, cap, games, Triple(hash, move, child)).value);
      EdgeIn(roots, edges, rules, cap, games, e);
      var i :| 0 <= i < |es| && es[i] == e;
      assert RowKey(hash, rows[i]) == es[i].key;
    }
  }

  /** The merged streams are determined by the games: the file does not depend on spill threshold, runs, or the source of the counts. */
  lemma MergedIsUnique(roots: seq<Keyed<nat>>, edges: seq<Keyed<Agg>>, counts: seq<Keyed<nat>>,
                       roots': seq<Keyed<nat>>, edges': seq<Keyed<Agg>>, counts': seq<Keyed<nat>>,
                       rules: Rules, cap: nat, games: seq<StoredGame>)
    requires Merged(roots, edges, rules, cap, games) && CountsVisits(counts, rules, games)
    requires Merged(roots', edges', rules, cap, games) && CountsVisits(counts', rules, games)
    ensures roots == roots' && edges == edges' && counts == counts'
  {
    hide RootCount, NaiveEdge, VisitCount, Total;
    AggregateIsUnique(Plus, roots, roots');
    AggregateIsUnique(Add, edges, edges');
    AggregateIsUnique(Plus, counts, counts');
  }
}
