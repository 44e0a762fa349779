/**
 * What the written tree means: its bytes are read back as its nodes, and open() accepts it exactly when no position has 2^32 or more
 * distinct recorded edges.
 */
module OpeningTreeWidth {
  import opened Words
  import opened SortedRuns
  import opened Aggregation
  import opened Chess
  import opened OpeningStats
  import opened OpeningTreeBytes
  import opened OpeningTreeFile
  import opened OpeningTreeWriter
  import opened OpeningTree
  import opened OpeningTreeBuilder

  function EdgesBefore(rules: Rules, cap: nat, g: StoredGame, n: nat): set<Triple>
    requires n <= |g.moves|
  {
    set ply | 0 <= ply < n && Covered(rules, cap, g, ply) :: EdgeKey(rules, g, ply)
  }

  /** The distinct edges a game is recorded with. */
  function GameEdges(rules: Rules, cap: nat, g: StoredGame): set<Triple> {
    EdgesBefore(rules, cap, g, |g.moves|)
  }

  function StoreEdges(rules: Rules, cap: nat, games: seq<StoredGame>): set<Triple> {
    if games == [] then {} else StoreEdges(rules, cap, games[..|games| - 1]) + GameEdges(rules, cap, games[|games| - 1])
  }

  function EdgesAt(rules: Rules, cap: nat, games: seq<StoredGame>, root: nat): set<Triple> {
    set key | key in StoreEdges(rules, cap, games) && key.first == root
  }

  ghost predicate NarrowGames(rules: Rules, cap: nat, games: seq<StoredGame>) {
    forall root: nat :: |EdgesAt(rules, cap, games, root)| <= U32_MAX
  }

  lemma {:induction false} StoreEdgeIn(rules: Rules, cap: nat, games: seq<StoredGame>, key: Triple)
    ensures key in StoreEdges(rules, cap, games) <==> NaiveEdge(rules, cap, games, key).Some?
  {
    hide HashAfter, GameAgg;
    if games != [] {
      var front, last := games[..|games| - 1], games[|games| - 1];
      StoreEdgeIn(rules, cap, front, key);
      var p := FirstPly(rules, cap, last, key, |last.moves|);
      assert key in GameEdges(rules, cap, last) <==> p.Some?;
    }
  }

  function EdgeKeys(es: seq<Keyed<Agg>>): (keys: seq<Triple>)
    ensures |keys| == |es|
  {
    seq(|es|, i requires 0 <= i < |es| => es[i].key)
  }

  /** The widest node the reader takes. */
  predicate NarrowNodes(nodes: seq<Node>) {
    forall i :: 0 <= i < |nodes| ==> |nodes[i].continuations| <= U32_MAX
  }

  // How wide the nodes are.

  /** A root has as many continuations as the games have distinct edges from it. */
  lemma WidthOfRoot(roots: seq<Keyed<nat>>, edges: seq<Keyed<Agg>>, rules: Rules, cap: nat, games: seq<StoredGame>, root: nat)
    requires Merged(roots, edges, rules, cap, games)
    ensures |EdgesFrom(edges, root)| == |EdgesAt(rules, cap, games, root)|
  {
    hide Merged, NaiveEdge, StoreEdges, EdgesFrom;
    MergedRuns(roots, edges, rules, cap, games);
    EdgesFromAre(edges, root);
    var es := EdgesFrom(edges, root);
    var keys := EdgeKeys(es);
    DistinctElements(keys);
    forall key
      ensures key in Elements(keys) <==> key in EdgesAt(rules, cap, games, root)
    {
      StoreEdgeIn(rules, cap, games, key);
      if key in keys {
        var i :| 0 <= i < |es| && es[i].key == key;
        assert es[i] in edges;
        EdgeIn(roots, edges, rules, cap, games, es[i]);
      }
      if key in EdgesAt(rules, cap, games, root) {
        var e := Keyed(key, NaiveEdge(rules, cap, games, key).value);
        EdgeIn(roots, edges, rules, cap, games, e);
        var i :| 0 <= i < |es| && es[i] == e;
        assert keys[i] == key;
      }
    }
    assert Elements(keys) == EdgesAt(rules, cap, games, root);
  }

  lemma NodeWidth(roots: seq<Keyed<nat>>, edges: seq<Keyed<Agg>>, counts: seq<Keyed<nat>>, rules: Rules, cap: nat, games: seq<StoredGame>, i: nat)
    requires Merged(roots, edges, rules, cap, games) && i < |roots|
    ensures |TreeNodes(roots, edges, counts, StartHash(rules))[i].continuations| == |EdgesAt(rules, cap, games, roots[i].key.first)|
  {
    hide Merged, EdgesAt, EdgesFrom, StartHash;
    WidthOfRoot(roots, edges, rules, cap, games, roots[i].key.first);
  }

  lemma NarrowExactly(roots: seq<Keyed<nat>>, edges: seq<Keyed<Agg>>, counts: seq<Keyed<nat>>, rules: Rules, cap: nat, games: seq<StoredGame>)
    requires Merged(roots, edges, rules, cap, games)
    ensures NarrowNodes(TreeNodes(roots, edges, counts, StartHash(rules))) <==> NarrowGames(rules, cap, games)
  {
    hide Merged, StoreEdges, TreeNodes, StartHash, RootCount, NaiveEdge;
    var nodes := TreeNodes(roots, edges, counts, StartHash(rules));
    forall i | 0 <= i < |nodes|
      ensures |nodes[i].continuations| == |EdgesAt(rules, cap, games, roots[i].key.first)|
    {
      NodeWidth(roots, edges, counts, rules, cap, games, i);
    }
    forall root: nat | NarrowNodes(nodes)
      ensures |EdgesAt(rules, cap, games, root)| <= U32_MAX
    {
      if key :| key in EdgesAt(rules, cap, games, root) {
        StoreEdgeIn(rules, cap, games, key);
        EdgeEndsOccur(rules, cap, games, key);
        RootTotalIs(roots, rules, cap, games, edges, root);
        var i :| 0 <= i < |roots| && roots[i].key.first == root;
        assert |nodes[i].continuations| <= U32_MAX;
      }
    }
  }

  function TotalPlies(games: seq<StoredGame>): nat {
    if games == [] then 0 else TotalPlies(games[..|games| - 1]) + |games[|games| - 1].moves|
  }

  lemma {:induction false} EdgesUpTo(rules: Rules, cap: nat, g: StoredGame, n: nat)
    requires n <= |g.moves|
    ensures |EdgesBefore(rules, cap, g, n)| <= n
  {
    hide HashAfter, EdgeKey, Covered;
    if n == 0 {
      assert EdgesBefore(rules, cap, g, 0) == {};
    } else {
      EdgesUpTo(rules, cap, g, n - 1);
      var step := if Covered(rules, cap, g, n - 1) then {EdgeKey(rules, g, n - 1)} else {};
      assert EdgesBefore(rules, cap, g, n) == EdgesBefore(rules, cap, g, n - 1) + step;
    }
  }

  lemma {:induction false} EdgesAreFew(rules: Rules, cap: nat, games: seq<StoredGame>)
    ensures |StoreEdges(rules, cap, games)| <= TotalPlies(games)
  {
    if games != [] {
      hide GameEdges;
      var front, last := games[..|games| - 1], games[|games| - 1];
      EdgesAreFew(rules, cap, front);
      GameEdgesAreFew(rules, cap, last);
      UnionIsSmall(StoreEdges(rules, cap, front), GameEdges(rules, cap, last));
    }
  }

  lemma GameEdgesAreFew(rules: Rules, cap: nat, g: StoredGame)
    ensures |GameEdges(rules, cap, g)| <= |g.moves|
  {
    EdgesUpTo(rules, cap, g, |g.moves|);
  }

  lemma {:induction false} SubsetIsSmall<T>(a: set<T>, b: set<T>)
    requires a <= b
    ensures |a| <= |b|
  {
    assert b == a + (b - a);
  }

  /** Every continuation of a built node passes read_continuation. */
  lemma BuiltContinuationOk(roots: seq<Keyed<nat>>, edges: seq<Keyed<Agg>>, counts: seq<Keyed<nat>>, rules: Rules, cap: nat,
                            games: seq<StoredGame>, j: nat)
    requires Merged(roots, edges, rules, cap, games) && CountsVisits(counts, rules, games) && j < |edges|
    requires ValidStore(games) && AllElosOk(games) && (edges[j].value.rootPly <= U16_MAX)
    ensures
      var root := edges[j].key.first;
      ContinuationOk(ContinuationOf(edges[j], counts), PlyCap(root == StartHash(rules), cap), RootCount(rules, cap, games, root))
  {
    hide RootCount, NaiveEdge, VisitCount, Merged, CountsVisits, CountOf, HashAfter, ValidStore;
    var key, a := edges[j].key, edges[j].value;
    EdgeAt(roots, edges, rules, cap, games, j);
    NaiveEdgeOk(rules, cap, games, key);
    CountsAreOk(counts, rules, games);
    CountsAreBounded(rules, cap, games, key.third);
    CountsAreBounded(rules, cap, games, key.first);
    StoreIsBounded(games);
    EloSumsFit(a);
  }

  lemma EloSumsFit(a: Agg)
    requires AggOk(a) && a.frequency <= U32_MAX
    ensures a.whiteEloSum <= I64_MAX && a.blackEloSum <= I64_MAX
  {
    assert I32_MAX * a.frequency <= I32_MAX * U32_MAX;
  }

  lemma {:induction false} RootPlyFits(rules: Rules, cap: nat, games: seq<StoredGame>, key: Triple)
    requires ShortGames(games) && NaiveEdge(rules, cap, games, key).Some?
    ensures NaiveEdge(rules, cap, games, key).value.rootPly <= U16_MAX
  {
    hide FirstPly, After, HashAfter, GameAgg;
    var front, last := games[..|games| - 1], games[|games| - 1];
    if NaiveEdge(rules, cap, front, key).Some? {
      RootPlyFits(rules, cap, front, key);
    }
    if Contribution(rules, cap, last, key).Some? {
      PlyOfAgg(last, FirstPly(rules, cap, last, key, |last.moves|).value);
      FirstPlyBounded(rules, cap, last, key);
    }
  }

  lemma FirstPlyBounded(rules: Rules, cap: nat, g: StoredGame, key: Triple)
    requires FirstPly(rules, cap, g, key, |g.moves|).Some?
    ensures FirstPly(rules, cap, g, key, |g.moves|).value < |g.moves|
  {
  }

  lemma {:induction false} BuiltNodesOk(roots: seq<Keyed<nat>>, edges: seq<Keyed<Agg>>, counts: seq<Keyed<nat>>, rules: Rules, cap: nat,
                                        games: seq<StoredGame>, n: nat)
    requires Merged(roots, edges, rules, cap, games) && CountsVisits(counts, rules, games)
    requires ValidStore(games) && AllElosOk(games) && ShortGames(games) && n <= |roots|
    ensures
      var nodes := TreeNodes(roots, edges, counts, StartHash(rules));
      NodesOk(nodes[..n], cap, |games|, StartHash(rules)) <==> NarrowNodes(nodes[..n])
    decreases n
  {
    hide Merged, CountsVisits, TreeNodes, ValidStore, AllElosOk, ShortGames, NodeFollows, HashAfter;
    if n > 0 {
      var nodes := TreeNodes(roots, edges, counts, StartHash(rules));
      BuiltNodesOk(roots, edges, counts, rules, cap, games, n - 1);
      assert nodes[..n][..n - 1] == nodes[..n - 1];
      BuiltNodeFollows(roots, edges, counts, rules, cap, games, n - 1);
      assert NarrowNodes(nodes[..n]) <==> NarrowNodes(nodes[..n - 1]) && |nodes[n - 1].continuations| <= U32_MAX by {
        assert forall i :: 0 <= i < n - 1 ==> nodes[..n][i] == nodes[..n - 1][i];
        assert nodes[..n][n - 1] == nodes[n - 1];
      }
    }
  }

  lemma BuiltNodeFollows(roots: seq<Keyed<nat>>, edges: seq<Keyed<Agg>>, counts: seq<Keyed<nat>>, rules: Rules, cap: nat,
                         games: seq<StoredGame>, n: nat)
    requires Merged(roots, edges, rules, cap, games) && CountsVisits(counts, rules, games)
    requires ValidStore(games) && AllElosOk(games) && ShortGames(games) && n < |roots|
    ensures
      var nodes := TreeNodes(roots, edges, counts, StartHash(rules));
      NodeFollows(nodes[..n], nodes[n], cap, |games|, StartHash(rules)) <==> |nodes[n].continuations| <= U32_MAX
  {
    hide CountsVisits, ValidStore, AllElosOk, ShortGames, HashAfter, EdgesFrom, ContinuationsOk, RootCount, NaiveEdge, VisitCount, Total;
    var nodes := TreeNodes(roots, edges, counts, StartHash(rules));
    RootAt(roots, edges, rules, cap, games, n);
    CountsAreBounded(rules, cap, games, roots[n].key.first);
    StoreIsBounded(games);
    BuiltContinuationsOk(roots, edges, counts, rules, cap, games, n);
    forall i | 0 <= i < n
      ensures nodes[i].hash < nodes[n].hash
    {
      RootAt(roots, edges, rules, cap, games, i);
      assert Less(roots[i].key, roots[n].key);
    }
  }

  lemma BuiltContinuationsOk(roots: seq<Keyed<nat>>, edges: seq<Keyed<Agg>>, counts: seq<Keyed<nat>>, rules: Rules, cap: nat,
                             games: seq<StoredGame>, n: nat)
    requires Merged(roots, edges, rules, cap, games) && CountsVisits(counts, rules, games)
    requires ValidStore(games) && AllElosOk(games) && ShortGames(games) && n < |roots|
    ensures ContinuationsOk(TreeNodes(roots, edges, counts, StartHash(rules))[n], cap)
  {
    hide CountsVisits, Merged, ValidStore, AllElosOk, ShortGames, HashAfter, EdgesFrom, RootCount, NaiveEdge, VisitCount, ContinuationOk;
    hide ContinuationOf;
    var root := roots[n].key.first;
    RootAt(roots, edges, rules, cap, games, n);
    MergedRuns(roots, edges, rules, cap, games);
    EdgesFromAre(edges, root);
    NodeOfRoot(roots[n], edges, counts, StartHash(rules));
    var es := EdgesFrom(edges, root);
    forall i | 0 <= i < |es|
      ensures ContinuationOk(ContinuationOf(es[i], counts), PlyCap(root == StartHash(rules), cap), RootCount(rules, cap, games, root))
    {
      assert es[i] in edges;
      var j :| 0 <= j < |edges| && edges[j] == es[i];
      EdgeAt(roots, edges, rules, cap, games, j);
      RootPlyFits(rules, cap, games, edges[j].key);
      BuiltContinuationOk(roots, edges, counts, rules, cap, games, j);
    }
  }

  lemma {:induction false} EdgeWitness(rules: Rules, cap: nat, games: seq<StoredGame>, key: Triple) returns (i: nat, p: nat)
    requires NaiveEdge(rules, cap, games, key).Some?
    ensures i < |games| && p < |games[i].moves| && EdgeKey(rules, games[i], p) == key
  {
    hide After, HashAfter, GameAgg;
    var front, last := games[..|games| - 1], games[|games| - 1];
    if Contribution(rules, cap, last, key).Some? {
      i, p := |games| - 1, FirstPly(rules, cap, last, key, |last.moves|).value;
    } else {
      i, p := EdgeWitness(rules, cap, front, key);
    }
  }

  // The words of a built tree.

  lemma RootIsHash(rules: Rules, cap: nat, games: seq<StoredGame>, hash: nat)
    requires RootCount(rules, cap, games, hash) > 0
    ensures hash in StoreHashes(rules, games) && hash <= U64_MAX
    decreases |games|
  {
    hide HashAfter;
    var front, last := games[..|games| - 1], games[|games| - 1];
    if RootOf(rules, cap, last, hash) {
      var p: nat :| p <= |last.moves| && HashAt(rules, last, p) == hash;
      assert hash in GameHashes(rules, last);
    } else {
      RootIsHash(rules, cap, front, hash);
    }
  }

  function HashesBefore(rules: Rules, g: StoredGame, n: nat): set<nat>
    requires n <= |g.moves| + 1
  {
    set ply | 0 <= ply < n :: HashAt(rules, g, ply)
  }

  function GameHashes(rules: Rules, g: StoredGame): set<nat> {
    HashesBefore(rules, g, |g.moves| + 1)
  }

  /** The distinct hashes of the positions of all games. */
  function StoreHashes(rules: Rules, games: seq<StoredGame>): set<nat> {
    if games == [] then {} else StoreHashes(rules, games[..|games| - 1]) + GameHashes(rules, games[|games| - 1])
  }

  lemma {:induction false} HashesUpTo(rules: Rules, g: StoredGame, n: nat)
    requires n <= |g.moves| + 1
    ensures |HashesBefore(rules, g, n)| <= n
  {
    hide HashAt;
    if n == 0 {
      assert HashesBefore(rules, g, 0) == {};
    } else {
      HashesUpTo(rules, g, n - 1);
      assert HashesBefore(rules, g, n) == HashesBefore(rules, g, n - 1) + {HashAt(rules, g, n - 1)};
    }
  }

  lemma {:induction false} HashesAreFew(rules: Rules, games: seq<StoredGame>)
    ensures |StoreHashes(rules, games)| <= TotalPlies(games) + |games|
  {
    if games != [] {
      hide HashesBefore;
      var front, last := games[..|games| - 1], games[|games| - 1];
      HashesAreFew(rules, front);
      HashesUpTo(rules, last, |last.moves| + 1);
      UnionIsSmall(StoreHashes(rules, front), GameHashes(rules, last));
    }
  }

  lemma {:induction false} PliesAreFew(games: seq<StoredGame>)
    requires ShortGames(games)
    ensures TotalPlies(games) <= (U16_MAX + 1) * |games|
  {
    if games != [] {
      PliesAreFew(games[..|games| - 1]);
    }
  }

  function RootHashes(roots: seq<Keyed<nat>>): (keys: seq<Triple>)
    ensures |keys| == |roots|
  {
    seq(|roots|, i requires 0 <= i < |roots| => roots[i].key)
  }

  /** There are at most as many roots as positions in the games. */
  lemma RootsAreFew(roots: seq<Keyed<nat>>, edges: seq<Keyed<Agg>>, rules: Rules, cap: nat, games: seq<StoredGame>)
    requires Merged(roots, edges, rules, cap, games)
    ensures |roots| <= |StoreHashes(rules, games)|
  {
    hide Merged, StoreHashes, RootCount;
    MergedRuns(roots, edges, rules, cap, games);
    var keys := RootHashes(roots);
    DistinctElements(keys);
    var hashes := set key | key in Elements(keys) :: key.first;
    forall key | key in Elements(keys)
      ensures key == HashKey(key.first) && key.first in StoreHashes(rules, games)
    {
      var i :| 0 <= i < |roots| && roots[i].key == key;
      RootAt(roots, edges, rules, cap, games, i);
      RootIsHash(rules, cap, games, key.first);
    }
    FirstsAreAsMany(Elements(keys), hashes);
    SubsetIsSmall(hashes, StoreHashes(rules, games));
  }

  lemma {:induction false} FirstsAreAsMany(keys: set<Triple>, hashes: set<nat>)
    requires forall key :: key in keys ==> key == HashKey(key.first)
    requires hashes == set key | key in keys :: key.first
    ensures |hashes| == |keys|
  {
    if key :| key in keys {
      var rest := keys - {key};
      FirstsAreAsMany(rest, set k | k in rest :: k.first);
      assert key.first !in (set k | k in rest :: k.first);
      assert hashes == (set k | k in rest :: k.first) + {key.first};
    } else {
      assert keys == {} && hashes == {};
    }
  }

  lemma BuiltContinuationFits(roots: seq<Keyed<nat>>, edges: seq<Keyed<Agg>>, counts: seq<Keyed<nat>>, rules: Rules, cap: nat,
                              games: seq<StoredGame>, e: Keyed<Agg>)
    requires Merged(roots, edges, rules, cap, games) && CountsVisits(counts, rules, games) && e in edges
    requires ValidStore(games) && AllElosOk(games) && ShortGames(games) && MovesFit(games) && cap <= U16_MAX
    ensures ContinuationFits(ContinuationOf(e, counts))
  {
    hide Merged, CountsVisits, NaiveEdge, RootCount, HashAfter, ValidStore, AllElosOk, ShortGames, FrequencyOf;
    var j :| 0 <= j < |edges| && edges[j] == e;
    EdgeAt(roots, edges, rules, cap, games, j);
    RootPlyFits(rules, cap, games, e.key);
    BuiltContinuationOk(roots, edges, counts, rules, cap, games, j);
    var i, p := EdgeWitness(rules, cap, games, e.key);
    assert e.key.second == games[i].moves[p] && e.key.third == HashAt(rules, games[i], p + 1);
  }

  lemma BuiltNodesFit(roots: seq<Keyed<nat>>, edges: seq<Keyed<Agg>>, counts: seq<Keyed<nat>>, rules: Rules, cap: nat, games: seq<StoredGame>)
    requires Merged(roots, edges, rules, cap, games) && CountsVisits(counts, rules, games)
    requires ValidStore(games) && AllElosOk(games) && ShortGames(games) && MovesFit(games) && cap <= U16_MAX
    ensures NodesFit(TreeNodes(roots, edges, counts, StartHash(rules))) && |roots| <= U64_MAX
  {
    hide Merged, CountsVisits, ValidStore, AllElosOk, ShortGames, MovesFit, StoreEdges, StoreHashes, TotalPlies, RootCount, TreeNode;
    hide ContinuationFits, EdgesFrom, ContinuationOf, EdgesAt, StartHash;
    PliesAreFew(games);
    StoreIsBounded(games);
    HashesAreFew(rules, games);
    RootsAreFew(roots, edges, rules, cap, games);
    EdgesAreFew(rules, cap, games);
    MergedRuns(roots, edges, rules, cap, games);
    var nodes := TreeNodes(roots, edges, counts, StartHash(rules));
    forall i | 0 <= i < |nodes|
      ensures NodeFits(nodes[i])
    {
      var root := roots[i].key.first;
      RootAt(roots, edges, rules, cap, games, i);
      RootIsHash(rules, cap, games, root);
      CountsAreBounded(rules, cap, games, root);
      NodeOfRoot(roots[i], edges, counts, StartHash(rules));
      NodeValue(roots[i], edges, counts, StartHash(rules));
      NodeWidth(roots, edges, counts, rules, cap, games, i);
      EdgesAtAreFew(rules, cap, games, root);
      EdgesFromAre(edges, root);
      var es := EdgesFrom(edges, root);
      forall k | 0 <= k < |es|
        ensures ContinuationFits(ContinuationOf(es[k], counts))
      {
        assert es[k] in es;
        BuiltContinuationFits(roots, edges, counts, rules, cap, games, es[k]);
      }
    }
  }

  lemma NodeValue(root: Keyed<nat>, edges: seq<Keyed<Agg>>, counts: seq<Keyed<nat>>, start: nat)
    ensures TreeNode(root, edges, counts, start).gameCount == root.value
  {
  }

  lemma EdgesAtAreFew(rules: Rules, cap: nat, games: seq<StoredGame>, root: nat)
    ensures |EdgesAt(rules, cap, games, root)| <= |StoreEdges(rules, cap, games)|
  {
    SubsetIsSmall(EdgesAt(rules, cap, games, root), StoreEdges(rules, cap, games));
  }

  /** With 16-bit Elos every weight in the tree is one that doubles hold exactly. */
  lemma BuiltNodesExact(roots: seq<Keyed<nat>>, edges: seq<Keyed<Agg>>, counts: seq<Keyed<nat>>, rules: Rules, cap: nat, games: seq<StoredGame>)
    requires Merged(roots, edges, rules, cap, games)
    requires ValidStore(games) && AllElosOk(games) && SmallElos(games)
    ensures ExactNodes(TreeNodes(roots, edges, counts, StartHash(rules)))
  {
    hide Merged, ValidStore, AllElosOk, SmallElos, EdgesFrom, StartHash, TreeNode, NaiveEdge, ExactNode;
    MergedRuns(roots, edges, rules, cap, games);
    var nodes := TreeNodes(roots, edges, counts, StartHash(rules));
    forall i | 0 <= i < |nodes|
      ensures ExactNode(nodes[i])
    {
      NodeIsExact(roots, edges, counts, rules, cap, games, i);
    }
  }

  lemma NodeIsExact(roots: seq<Keyed<nat>>, edges: seq<Keyed<Agg>>, counts: seq<Keyed<nat>>, rules: Rules, cap: nat, games: seq<StoredGame>, i: nat)
    requires Merged(roots, edges, rules, cap, games) && i < |roots|
    requires ValidStore(games) && AllElosOk(games) && SmallElos(games)
    ensures ExactNode(TreeNodes(roots, edges, counts, StartHash(rules))[i])
  {
    hide Merged, ValidStore, AllElosOk, SmallElos, EdgesFrom, StartHash, NaiveEdge;
    MergedRuns(roots, edges, rules, cap, games);
    var root := roots[i].key.first;
    EdgesFromAre(edges, root);
    var es := EdgesFrom(edges, root);
    NodeOfRoot(roots[i], edges, counts, StartHash(rules));
    forall k | 0 <= k < |es|
      ensures Magnitude(es[k].value.weightedContrib) < 2 * FRACTION && Magnitude(es[k].value.eloWeight) < 2 * FRACTION
    {
      assert es[k] in es;
      EdgeIn(roots, edges, rules, cap, games, es[k]);
      WeightsAreExact(rules, cap, games, es[k].key);
    }
  }

  /** A built tree is accepted exactly when the games play fewer than 2^32 distinct recorded edges from every position. */
  lemma TreeIsAcceptable(roots: seq<Keyed<nat>>, edges: seq<Keyed<Agg>>, counts: seq<Keyed<nat>>, rules: Rules, cap: nat, games: seq<StoredGame>)
    requires Merged(roots, edges, rules, cap, games) && CountsVisits(counts, rules, games)
    requires ValidStore(games) && AllElosOk(games) && ShortGames(games) && MovesFit(games) && cap <= U16_MAX
    ensures
      TreeAcceptable(FileOf(TreeNodes(roots, edges, counts, StartHash(rules)), cap, |games|), StartHash(rules)) <==> NarrowGames(rules, cap, games)
  {
    hide Merged, CountsVisits, NarrowGames, NarrowNodes, TreeNodes, StartHash, TreeAcceptable, FileOf, ValidStore, AllElosOk, ShortGames, MovesFit;
    hide NodesFit, NodesOk, ParseNodes, ExactNodes, StoredNodes, StoredCap, StoredGameCount, StoredNodeCount;
    var start := StartHash(rules);
    var nodes := TreeNodes(roots, edges, counts, start);
    BuiltNodesFit(roots, edges, counts, rules, cap, games);
    StoreIsBounded(games);
    assert |nodes| == |roots|;
    WrittenIsRead(nodes, cap, |games|, start);
    BuiltNodesOk(roots, edges, counts, rules, cap, games, |nodes|);
    assert nodes[..|nodes|] == nodes;
    NarrowExactly(roots, edges, counts, rules, cap, games);
  }

  /** With 16-bit Elos the nodes read from a built file are the built nodes. */
  lemma BuiltNodesAreRead(file: TreeFile, rules: Rules, cap: nat, games: seq<StoredGame>)
    requires IndexesTree(file, rules, cap, games) && cap <= U16_MAX
    requires ValidStore(games) && AllElosOk(games) && ShortGames(games) && MovesFit(games) && SmallElos(games)
    ensures StoredCap(file) == cap && StoredGameCount(file) == |games|
    ensures
      var parsed := ParseNodes(file, StoredNodeCount(file));
      parsed.Some? && BuiltNodes(parsed.value.0, rules, cap, games)
  {
    hide Merged, CountsVisits, TreeNodes, StartHash, FileOf, ValidStore, AllElosOk, ShortGames, MovesFit, SmallElos, TreeAcceptable;
    hide NodesFit, NodesOk, ParseNodes, ExactNodes, StoredNodes, StoredCap, StoredGameCount, StoredNodeCount;
    var nodes :| BuiltNodes(nodes, rules, cap, games) && file == FileOf(nodes, cap, |games|);
    var roots, edges, counts :| Merged(roots, edges, rules, cap, games) && CountsVisits(counts, rules, games)
                                && nodes == TreeNodes(roots, edges, counts, StartHash(rules));
    BuiltNodesFit(roots, edges, counts, rules, cap, games);
    BuiltNodesExact(roots, edges, counts, rules, cap, games);
    StoreIsBounded(games);
    assert |nodes| == |roots|;
    WrittenIsRead(nodes, cap, |games|, StartHash(rules));
  }

  /** The bytes of the file are the same for every spill threshold, memory limit, and source of child counts. */
  lemma TreeBytesAreDetermined(a: TreeFile, b: TreeFile, rules: Rules, cap: nat, games: seq<StoredGame>)
    requires IndexesTree(a, rules, cap, games) && IndexesTree(b, rules, cap, games)
    ensures a == b
  {
    hide BuiltNodes, FileOf;
    var nodes :| BuiltNodes(nodes, rules, cap, games) && a == FileOf(nodes, cap, |games|);
    var others :| BuiltNodes(others, rules, cap, games) && b == FileOf(others, cap, |games|);
    TreeIsDetermined(nodes, others, rules, cap, games);
  }

  // Stores that cannot be too wide, and one that is.

  /** Whatever the hashes: games with fewer than 2^32 plies in all give a tree that is accepted. */
  lemma FewPliesAreNarrow(rules: Rules, cap: nat, games: seq<StoredGame>)
    requires TotalPlies(games) <= U32_MAX
    ensures NarrowGames(rules, cap, games)
  {
    hide StoreEdges, TotalPlies;
    EdgesAreFew(rules, cap, games);
    forall root: nat
      ensures |EdgesAt(rules, cap, games, root)| <= U32_MAX
    {
      SubsetIsSmall(EdgesAt(rules, cap, games, root), StoreEdges(rules, cap, games));
    }
  }

  /** Equal hash and move lead to equal child hashes, as they do when hashes are those of positions without collisions. */
  ghost predicate HashesDetermineChildren(rules: Rules, games: seq<StoredGame>) {
    forall i, j, p, q :: 0 <= i < |games| && 0 <= j < |games| && 0 <= p < |games[i].moves| && 0 <= q < |games[j].moves|
      && EdgeKey(rules, games[i], p).first == EdgeKey(rules, games[j], q).first
      && EdgeKey(rules, games[i], p).second == EdgeKey(rules, games[j], q).second
      ==> EdgeKey(rules, games[i], p).third == EdgeKey(rules, games[j], q).third
  }

  /** Continuations of one root differ in their moves. */
  lemma MovesDiffer(roots: seq<Keyed<nat>>, edges: seq<Keyed<Agg>>, rules: Rules, cap: nat, games: seq<StoredGame>, a: Keyed<Agg>, b: Keyed<Agg>)
    requires Merged(roots, edges, rules, cap, games) && HashesDetermineChildren(rules, games) && MovesFit(games)
    requires a in edges && b in edges && a.key.first == b.key.first && Less(a.key, b.key)
    ensures a.key.second < b.key.second <= U16_MAX
  {
    hide Merged, NaiveEdge, HashAfter;
    EdgeIn(roots, edges, rules, cap, games, a);
    EdgeIn(roots, edges, rules, cap, games, b);
    var i, p := EdgeWitness(rules, cap, games, a.key);
    var j, q := EdgeWitness(rules, cap, games, b.key);
    assert EdgeKey(rules, games[i], p).first == EdgeKey(rules, games[j], q).first;
    assert games[j].moves[q] == b.key.second;
  }

  lemma {:induction false} FewerThanMoves(es: seq<Keyed<Agg>>, n: nat)
    requires n < |es| && forall i, j :: 0 <= i < j < |es| ==> es[i].key.second < es[j].key.second
    ensures n <= es[n].key.second
  {
    if n > 0 {
      FewerThanMoves(es, n - 1);
    }
  }

  /** With 16-bit moves and collision-free hashes no node is too wide, so the built tree is always accepted. */
  lemma NodesAreNarrow(roots: seq<Keyed<nat>>, edges: seq<Keyed<Agg>>, counts: seq<Keyed<nat>>, rules: Rules, cap: nat, games: seq<StoredGame>)
    requires Merged(roots, edges, rules, cap, games) && HashesDetermineChildren(rules, games) && MovesFit(games)
    ensures NarrowNodes(TreeNodes(roots, edges, counts, StartHash(rules)))
  {
    hide Merged, HashesDetermineChildren, MovesFit, EdgesFrom, StartHash;
    var nodes := TreeNodes(roots, edges, counts, StartHash(rules));
    MergedRuns(roots, edges, rules, cap, games);
    forall i | 0 <= i < |nodes|
      ensures |nodes[i].continuations| <= U32_MAX
    {
      var es := EdgesFrom(edges, roots[i].key.first);
      EdgesFromAre(edges, roots[i].key.first);
      if |es| > 1 {
        forall a, b | 0 <= a < b < |es|
          ensures es[a].key.second < es[b].key.second <= U16_MAX
        {
          assert es[a] in es && es[b] in es;
          MovesDiffer(roots, edges, rules, cap, games, es[a], es[b]);
        }
        FewerThanMoves(es, |es| - 1);
        assert es[0].key.second < es[|es| - 1].key.second;
      }
    }
  }

  const MOVES: nat := 0x1_0000

  function WideStep(position: nat, move: nat): nat {
    if position == 0 then 1 + move else MOVES + 1 + (position - 1) * MOVES + move
  }

  /** The start position and all positions after one move share a hash; positions after two moves have each their own. */
  function WideHash(position: nat): Hash {
    if position <= MOVES then 0 else Min(position - MOVES, U64_MAX)
  }

  function WideRules(): Rules {
    Rules(0, WideStep, WideHash)
  }

  function WideGame(i: nat): StoredGame {
    StoredGame(i + 1, [i / MOVES, i % MOVES], 0, None, None)
  }

  function WideGames(): (games: seq<StoredGame>)
    ensures |games| == U32_MAX
  {
    seq(U32_MAX, i requires 0 <= i < U32_MAX => WideGame(i))
  }

  function WideKey(k: nat): Triple {
    Triple(0, if k == 0 then 0 else (k - 1) % MOVES, k)
  }

  lemma WideGameEdges(cap: nat, i: nat)
    requires i < U32_MAX
    ensures WideKey(i + 1) in GameEdges(WideRules(), cap, WideGame(i))
    ensures i == 0 ==> WideKey(0) in GameEdges(WideRules(), cap, WideGame(i))
  {
    var rules, g := WideRules(), WideGame(i);
    assert g.moves[..0] == [] && g.moves[..1] == [i / MOVES] && g.moves[..2] == g.moves;
    assert g.moves[..1][..0] == [] && g.moves[..2][..1] == g.moves[..1];
    assert After(rules, []) == 0;
    assert After(rules, g.moves[..1]) == 1 + i / MOVES;
    assert After(rules, g.moves[..2]) == MOVES + 1 + i;
    assert Covered(rules, cap, g, 0) && Covered(rules, cap, g, 1);
    assert EdgeKey(rules, g, 1) == WideKey(i + 1);
    assert i == 0 ==> EdgeKey(rules, g, 0) == WideKey(0);
  }

  lemma {:induction false} StoreHasGameEdges(rules: Rules, cap: nat, games: seq<StoredGame>, i: nat)
    requires i < |games|
    ensures GameEdges(rules, cap, games[i]) <= StoreEdges(rules, cap, games)
    decreases |games|
  {
    hide GameEdges;
    if i < |games| - 1 {
      StoreHasGameEdges(rules, cap, games[..|games| - 1], i);
    }
  }

  lemma {:induction false} ManyKeys(keys: set<Triple>, n: nat)
    requires forall k: nat :: k < n ==> WideKey(k) in keys
    ensures |keys| >= n
  {
    hide WideKey;
    if n > 0 {
      forall k: nat | k < n - 1
        ensures WideKey(k) in keys - {WideKey(n - 1)}
      {
        KeysDiffer(k, n - 1);
      }
      ManyKeys(keys - {WideKey(n - 1)}, n - 1);
    }
  }

  lemma KeysDiffer(a: nat, b: nat)
    requires a != b
    ensures WideKey(a) != WideKey(b)
  {
  }

  /** 2^32 - 1 games of two 16-bit moves whose hashes collide: their start node is too wide, at every depth cap. */
  lemma TooWide(cap: nat) returns (rules: Rules, games: seq<StoredGame>)
    ensures ValidStore(games) && AllElosOk(games) && ShortGames(games) && MovesFit(games)
    ensures TotalPlies(games) > U32_MAX && !NarrowGames(rules, cap, games)
  {
    hide StoreEdges, GameEdges, WideKey, TotalPlies, HashAfter;
    rules, games := WideRules(), WideGames();
    forall k: nat | k < U32_MAX + 1
      ensures WideKey(k) in EdgesAt(rules, cap, games, 0)
    {
      var i := if k == 0 then 0 else k - 1;
      WideGameEdges(cap, i);
      StoreHasGameEdges(rules, cap, games, i);
      KeyRoot(k);
      assert games[i] == WideGame(i);
    }
    ManyKeys(EdgesAt(rules, cap, games, 0), U32_MAX + 1);
    if TotalPlies(games) <= U32_MAX {
      FewPliesAreNarrow(rules, cap, games);
      assert false;
    }
    assert MovesFit(games) by {
      forall i, p | 0 <= i < |games| && 0 <= p < |games[i].moves|
        ensures games[i].moves[p] <= U16_MAX
      {
        assert games[i] == WideGame(i);
      }
    }
  }

  lemma KeyRoot(k: nat)
    ensures WideKey(k).first == 0
  {
  }
}
