/** The version-5 opening tree file: its bytes, its validating reader, and node queries. */
module OpeningTreeFile {
  import opened Words
  import opened SortedRuns
  import opened OpeningStats
  import opened OpeningTreeBytes
  import opened PostingsLookup

  const I64_MAX: nat := 0x7FFF_FFFF_FFFF_FFFF

  const HEADER_SIZE: nat := 30
  const MINIMUM_NODE_SIZE: nat := 11
  const FORMAT_VERSION: nat := 5
  // "MOTIFOT1"
  const MAGIC: seq<byte> := [0x4D, 0x4F, 0x54, 0x49, 0x46, 0x4F, 0x54, 0x31]

  datatype Continuation = Continuation(move: nat, child: nat, agg: Agg, transposition: nat)

  datatype Node = Node(hash: nat, gameCount: nat, complete: bool, continuations: seq<Continuation>)

  type TreeFile = seq<byte>

  // Records.

  /** Magic apart: version, depth cap, number of source games, number of nodes. */
  const HEADER: seq<Field> := [Fixed(4), Fixed(2), Fixed(8), Fixed(8)]

  /** Hash, game count, number of continuations, complete flag. */
  const NODE: seq<Field> := [Fixed(8), Varint, Varint, Varint]

  const CONTINUATION: seq<Field> :=
    [Fixed(2), Fixed(8), Varint, Varint, Varint, Varint, Varint, Varint, Varint, Varint, Varint, Fixed(8), Fixed(8), Varint, Varint, Varint]

  function Cast64(x: int): (word: nat)
    ensures word <= U64_MAX
  {
    x % (U64_MAX + 1)
  }

  function ContinuationValues(c: Continuation): (values: seq<nat>)
    ensures |values| == |CONTINUATION|
  {
    var a := c.agg;
    [c.move, c.child, a.rootPly, a.frequency, a.whiteWins, a.draws, a.blackWins, Cast64(a.whiteEloSum), a.whiteEloCount,
     Cast64(a.blackEloSum), a.blackEloCount, DoubleWord(a.weightedContrib), DoubleWord(a.eloWeight), a.ecoMin, a.ecoMax, c.transposition]
  }

  function ContinuationOfValues(v: seq<nat>): Continuation
    requires |v| == |CONTINUATION|
  {
    Continuation(v[0], v[1],
                 Agg(v[2], v[3], v[4], v[5], v[6], v[7], v[8], v[9], v[10], HalvesOf(v[11]), HalvesOf(v[12]), v[13], v[14]), v[15])
  }

  function EncodeContinuation(c: Continuation): seq<byte> {
    EncodeFields(CONTINUATION, ContinuationValues(c))
  }

  function EncodeContinuations(cs: seq<Continuation>): seq<byte> {
    if cs == [] then [] else EncodeContinuations(cs[..|cs| - 1]) + EncodeContinuation(cs[|cs| - 1])
  }

  function NodeValues(node: Node): (values: seq<nat>)
    ensures |values| == |NODE|
  {
    [node.hash, node.gameCount, |node.continuations|, if node.complete then 1 else 0]
  }

  function EncodeNode(node: Node): seq<byte> {
    EncodeFields(NODE, NodeValues(node)) + EncodeContinuations(node.continuations)
  }

  function EncodeNodes(nodes: seq<Node>): seq<byte> {
    if nodes == [] then [] else EncodeNodes(nodes[..|nodes| - 1]) + EncodeNode(nodes[|nodes| - 1])
  }

  function HeaderValues(maxRootPly: nat, sourceGameCount: nat, nodeCount: nat): (values: seq<nat>)
    ensures |values| == |HEADER|
  {
    [FORMAT_VERSION, maxRootPly, sourceGameCount, nodeCount]
  }

  function EncodeHeader(maxRootPly: nat, sourceGameCount: nat, nodeCount: nat): (s: seq<byte>) {
    MAGIC + EncodeFields(HEADER, HeaderValues(maxRootPly, sourceGameCount, nodeCount))
  }

  function FileOf(nodes: seq<Node>, maxRootPly: nat, sourceGameCount: nat): TreeFile {
    EncodeHeader(maxRootPly, sourceGameCount, |nodes|) + EncodeNodes(nodes)
  }

  // The reader's grammar.

  function ContinuationAt(file: TreeFile, offset: nat): (r: Option<(Continuation, nat)>)
    ensures r.Some? ==> offset <= r.value.1 <= |file|
  {
    match FieldsAt(CONTINUATION, file, offset)
    case None => None
    case Some((values, end)) => Some((ContinuationOfValues(values), end))
  }

  /** n continuations and the offset behind them. */
  function ContinuationsAt(file: TreeFile, offset: nat, n: nat): (r: Option<(seq<Continuation>, nat)>)
    ensures r.Some? ==> |r.value.0| == n && offset <= r.value.1
  {
    if n == 0 then Some(([], offset))
    else match ContinuationsAt(file, offset, n - 1)
      case None => None
      case Some((cs, next)) =>
        match ContinuationAt(file, next)
        case None => None
        case Some((c, end)) => Some((cs + [c], end))
  }

  function NodeAt(file: TreeFile, offset: nat): (r: Option<(Node, nat)>)
    ensures r.Some? ==> offset <= r.value.1
  {
    match FieldsAt(NODE, file, offset)
    case None => None
    case Some((h, next)) =>
      if h[3] > 1 then None
      else match ContinuationsAt(file, next, h[2])
        case None => None
        case Some((cs, end)) => Some((Node(h[0], h[1], h[3] == 1, cs), end))
  }

  /** The first n nodes of a file and the offset behind them. */
  function ParseNodes(file: TreeFile, n: nat): (r: Option<(seq<Node>, nat)>)
    ensures r.Some? ==> |r.value.0| == n
  {
    if n == 0 then Some(([], HEADER_SIZE))
    else match ParseNodes(file, n - 1)
      case None => None
      case Some((nodes, offset)) =>
        match NodeAt(file, offset)
        case None => None
        case Some((node, end)) => Some((nodes + [node], end))
  }

  function StoredVersion(file: TreeFile): nat {
    if |file| < HEADER_SIZE then 0 else FixedAt(file, 8, 4)
  }

  function StoredCap(file: TreeFile): nat {
    if |file| < HEADER_SIZE then 0 else FixedAt(file, 12, 2)
  }

  function StoredGameCount(file: TreeFile): nat {
    if |file| < HEADER_SIZE then 0 else FixedAt(file, 14, 8)
  }

  function StoredNodeCount(file: TreeFile): nat {
    if |file| < HEADER_SIZE then 0 else FixedAt(file, 22, 8)
  }

  predicate HeaderOk(file: TreeFile) {
    && |file| >= HEADER_SIZE && file[..8] == MAGIC && StoredVersion(file) == FORMAT_VERSION
    && StoredNodeCount(file) <= (|file| - HEADER_SIZE) / MINIMUM_NODE_SIZE
  }

  predicate ContinuationOk(c: Continuation, plyCap: nat, gameCount: nat) {
    var a := c.agg;
    && a.rootPly <= plyCap && 0 < a.frequency <= gameCount && a.frequency <= U32_MAX
    && a.whiteWins + a.draws + a.blackWins == a.frequency
    && 0 <= a.whiteEloSum <= I64_MAX && 0 <= a.blackEloSum <= I64_MAX
    && a.whiteEloCount <= a.frequency && a.blackEloCount <= a.frequency
    && 0 < a.ecoMin <= a.ecoMax <= U32_MAX
    && a.frequency <= c.transposition <= U32_MAX
  }

  function PlyCap(complete: bool, maxRootPly: nat): nat {
    if complete then U16_MAX else maxRootPly
  }

  predicate ContinuationsOk(node: Node, maxRootPly: nat) {
    forall i :: 0 <= i < |node.continuations| ==>
      ContinuationOk(node.continuations[i], PlyCap(node.complete, maxRootPly), node.gameCount)
  }

  /** What open() demands of a node after the ones before it; only one node, the start position's, may be complete. */
  predicate NodeFollows(nodes: seq<Node>, node: Node, maxRootPly: nat, sourceGameCount: nat, start: nat) {
    && 0 < node.gameCount <= U32_MAX && |node.continuations| <= U32_MAX
    && (nodes != [] ==> nodes[|nodes| - 1].hash < node.hash)
    && (node.complete ==> node.hash == start && node.gameCount == sourceGameCount && forall i :: 0 <= i < |nodes| ==> !nodes[i].complete)
    && ContinuationsOk(node, maxRootPly)
  }

  predicate NodesOk(nodes: seq<Node>, maxRootPly: nat, sourceGameCount: nat, start: nat) {
    nodes == []
    || (NodesOk(nodes[..|nodes| - 1], maxRootPly, sourceGameCount, start)
        && NodeFollows(nodes[..|nodes| - 1], nodes[|nodes| - 1], maxRootPly, sourceGameCount, start))
  }

  predicate TreeAcceptable(file: TreeFile, start: nat) {
    && HeaderOk(file)
    && var parsed := ParseNodes(file, StoredNodeCount(file));
       && parsed.Some? && parsed.value.1 == |file|
       && NodesOk(parsed.value.0, StoredCap(file), StoredGameCount(file), start)
  }

  /** The node tables open() keeps in memory; continuations stay in the file at their offset. */
  datatype NodeEntry = NodeEntry(hash: nat, gameCount: nat, offset: nat, continuationCount: nat, complete: bool)

  datatype TreeIndex = TreeIndex(entries: seq<NodeEntry>, sourceGameCount: nat, maxRootPly: nat)

  predicate EntryOf(e: NodeEntry, file: TreeFile, node: Node) {
    && e.hash == node.hash && e.gameCount == node.gameCount && e.complete == node.complete
    && e.continuationCount == |node.continuations|
    && var stored := ContinuationsAt(file, e.offset, e.continuationCount);
       stored.Some? && stored.value.0 == node.continuations
  }

  /** The tables describe the nodes and where their continuations lie. */
  predicate Indexes(entries: seq<NodeEntry>, file: TreeFile, nodes: seq<Node>) {
    |entries| == |nodes| && forall i :: 0 <= i < |nodes| ==> EntryOf(entries[i], file, nodes[i])
  }

  lemma {:induction false} ParsePrefix(file: TreeFile, k: nat, n: nat)
    requires k <= n && ParseNodes(file, n).Some?
    ensures ParseNodes(file, k).Some? && ParseNodes(file, k).value.0 == ParseNodes(file, n).value.0[..k]
  {
    hide NodeAt;
    if k < n {
      ParsePrefix(file, k, n - 1);
      var before, all := ParseNodes(file, n - 1).value.0, ParseNodes(file, n).value.0;
      assert all[..n - 1] == before;
      assert all[..k] == before[..k];
    } else {
      assert ParseNodes(file, n).value.0[..n] == ParseNodes(file, n).value.0;
    }
  }

  /** A node takes at least eleven bytes, so the check of the node count against the file size rejects nothing that could be read. */
  lemma {:induction false} NodesTakeRoom(file: TreeFile, n: nat)
    requires |file| >= HEADER_SIZE && ParseNodes(file, n).Some?
    ensures HEADER_SIZE + MINIMUM_NODE_SIZE * n <= ParseNodes(file, n).value.1
    ensures ParseNodes(file, n).value.1 <= |file|
  {
    hide NodeAt;
    if n > 0 {
      NodesTakeRoom(file, n - 1);
      NodeTakesRoom(file, ParseNodes(file, n - 1).value.1);
    }
  }

  lemma NodeTakesRoom(file: TreeFile, offset: nat)
    requires NodeAt(file, offset).Some?
    ensures offset + MINIMUM_NODE_SIZE <= NodeAt(file, offset).value.1 <= |file|
  {
    hide ContinuationsAt, FieldAt;
    HeaderTakesRoom(file, offset);
    var h := FieldsAt(NODE, file, offset).value;
    ContinuationsInside(file, h.1, h.0[2]);
  }

  lemma HeaderTakesRoom(file: TreeFile, offset: nat)
    requires FieldsAt(NODE, file, offset).Some?
    ensures offset + MINIMUM_NODE_SIZE <= FieldsAt(NODE, file, offset).value.1 <= |file|
  {
    hide FieldsAt;
    FieldsTakeRoom(NODE, file, offset);
    assert NODE[1..] == [Varint, Varint, Varint] && [Varint, Varint, Varint][1..] == [Varint, Varint] && [Varint, Varint][1..] == [Varint];
    assert MinimumTotal([Varint]) == 1;
    assert MinimumTotal([Varint, Varint, Varint]) == 3;
  }

  lemma {:induction false} ContinuationsInside(file: TreeFile, offset: nat, n: nat)
    requires ContinuationsAt(file, offset, n).Some? && offset <= |file|
    ensures ContinuationsAt(file, offset, n).value.1 <= |file|
  {
    hide ContinuationAt;
    if n > 0 {
      ContinuationsInside(file, offset, n - 1);
    }
  }

  lemma {:induction false} NodesPrefix(nodes: seq<Node>, k: nat, maxRootPly: nat, sourceGameCount: nat, start: nat)
    requires k <= |nodes| && NodesOk(nodes, maxRootPly, sourceGameCount, start)
    ensures NodesOk(nodes[..k], maxRootPly, sourceGameCount, start)
    decreases |nodes|
  {
    hide NodeFollows;
    if k < |nodes| {
      NodesPrefix(nodes[..|nodes| - 1], k, maxRootPly, sourceGameCount, start);
      assert nodes[..|nodes| - 1][..k] == nodes[..k];
    } else {
      assert nodes[..k] == nodes;
    }
  }

  /** read_continuation: its fields, and the checks on them. */
  method ReadContinuation(file: TreeFile, offset: nat, plyCap: nat, gameCount: nat) returns (r: Result<(StatRow, nat)>)
    ensures r.Ok? <==> ContinuationAt(file, offset).Some? && ContinuationOk(ContinuationAt(file, offset).value.0, plyCap, gameCount)
    ensures r.Ok? ==>
      var (c, end) := ContinuationAt(file, offset).value;
      r.value == (RowOf(Triple(0, c.move, c.child), c.agg, c.transposition), end)
    ensures r.Err? ==> r == Err(IoFailure)
  {
    hide FieldsAt, HalvesOf;
    var fields := ReadFields(CONTINUATION, file, offset);
    if fields.None? {
      return Err(IoFailure);
    }
    var c, a := ContinuationOfValues(fields.value.0), ContinuationOfValues(fields.value.0).agg;
    if a.rootPly > plyCap || a.frequency == 0 || a.frequency > gameCount || a.frequency > U32_MAX
       || a.whiteWins > a.frequency || a.draws > a.frequency || a.blackWins > a.frequency
       || a.whiteWins + a.draws + a.blackWins != a.frequency
       || a.whiteEloSum > I64_MAX || a.blackEloSum > I64_MAX
       || a.whiteEloCount > a.frequency || a.blackEloCount > a.frequency
       || a.ecoMin == 0 || a.ecoMin > a.ecoMax || a.ecoMax > U32_MAX
       || c.transposition < a.frequency || c.transposition > U32_MAX
    {
      return Err(IoFailure);
    }
    return Ok((StatRow(c.move, c.child, a.rootPly, a.frequency, c.transposition, a.whiteWins, a.draws, a.blackWins,
                       Average(a.whiteEloSum, a.whiteEloCount), Average(a.blackEloSum, a.blackEloCount), a.ecoMin, a.ecoMax,
                       if a.eloWeight > 0 then Some(a.weightedContrib as real / a.eloWeight as real) else None),
               fields.value.1));
  }

  /** Every one of the first n continuations passes the checks. */
  predicate AllOk(cs: seq<Continuation>, plyCap: nat, gameCount: nat) {
    forall i :: 0 <= i < |cs| ==> ContinuationOk(cs[i], plyCap, gameCount)
  }

  lemma {:induction false} ContinuationsPrefix(file: TreeFile, offset: nat, k: nat, n: nat)
    requires k <= n && ContinuationsAt(file, offset, n).Some?
    ensures ContinuationsAt(file, offset, k).Some? && ContinuationsAt(file, offset, k).value.0 == ContinuationsAt(file, offset, n).value.0[..k]
  {
    hide ContinuationAt;
    if k < n {
      ContinuationsPrefix(file, offset, k, n - 1);
      var before, all := ContinuationsAt(file, offset, n - 1).value.0, ContinuationsAt(file, offset, n).value.0;
      assert all[..n - 1] == before;
      assert all[..k] == before[..k];
    } else {
      assert ContinuationsAt(file, offset, n).value.0[..n] == ContinuationsAt(file, offset, n).value.0;
    }
  }

  /** The k-th of n continuations lies behind the first k. */
  lemma NextContinuation(file: TreeFile, offset: nat, k: nat, n: nat)
    requires k < n && ContinuationsAt(file, offset, n).Some? && ContinuationsAt(file, offset, k).Some?
    ensures
      var next, cs := ContinuationsAt(file, offset, k).value.1, ContinuationsAt(file, offset, n).value.0;
      ContinuationAt(file, next).Some? && ContinuationAt(file, next).value.0 == cs[k]
  {
    hide ContinuationAt;
    ContinuationsPrefix(file, offset, k + 1, n);
    var upto := ContinuationsAt(file, offset, k + 1).value.0;
    assert upto[k] == ContinuationsAt(file, offset, n).value.0[k];
  }

  /** The continuations of one node, each checked. */
  method CheckContinuations(file: TreeFile, offset: nat, n: nat, plyCap: nat, gameCount: nat) returns (end: Option<nat>)
    ensures
      var stored := ContinuationsAt(file, offset, n);
      end == if stored.Some? && AllOk(stored.value.0, plyCap, gameCount) then Some(stored.value.1) else None
  {
    hide ContinuationOk, ContinuationAt, RowOf;
    var next := offset;
    for k := 0 to n
      invariant ContinuationsAt(file, offset, k).Some? && ContinuationsAt(file, offset, k).value.1 == next
      invariant AllOk(ContinuationsAt(file, offset, k).value.0, plyCap, gameCount)
    {
      var row := ReadContinuation(file, next, plyCap, gameCount);
      if row.Err? {
        if ContinuationsAt(file, offset, n).Some? {
          NextContinuation(file, offset, k, n);
          assert !ContinuationOk(ContinuationsAt(file, offset, n).value.0[k], plyCap, gameCount);
        }
        return None;
      }
      next := row.value.1;
    }
    return Some(next);
  }

  predicate Parsed(file: TreeFile, start: nat, k: nat, nodes: seq<Node>, offset: nat) {
    ParseNodes(file, k) == Some((nodes, offset)) && NodesOk(nodes, StoredCap(file), StoredGameCount(file), start)
  }

  lemma ParseStep(file: TreeFile, start: nat, k: nat, nodes: seq<Node>, offset: nat)
    requires Parsed(file, start, k, nodes, offset) && k < StoredNodeCount(file)
    ensures
      var node := NodeAt(file, offset);
      if node.Some? && NodeFollows(nodes, node.value.0, StoredCap(file), StoredGameCount(file), start)
      then Parsed(file, start, k + 1, nodes + [node.value.0], node.value.1)
      else !TreeAcceptable(file, start)
  {
    hide NodeFollows, NodeAt, HeaderOk, StoredCap, StoredGameCount, StoredNodeCount;
    var node := NodeAt(file, offset);
    if node.Some? {
      assert (nodes + [node.value.0])[..|nodes|] == nodes;
    }
    if TreeAcceptable(file, start) {
      ParsePrefix(file, k + 1, StoredNodeCount(file));
      NodesPrefix(ParseNodes(file, StoredNodeCount(file)).value.0, k + 1, StoredCap(file), StoredGameCount(file), start);
    }
  }

  lemma IndexGrows(entries: seq<NodeEntry>, file: TreeFile, nodes: seq<Node>, e: NodeEntry, node: Node)
    requires Indexes(entries, file, nodes) && EntryOf(e, file, node)
    ensures Indexes(entries + [e], file, nodes + [node])
  {
    hide EntryOf;
  }

  /** open(): header, then one pass over the nodes, every one and every continuation checked, to the end of the file. */
  method OpenTree(file: TreeFile, start: nat) returns (r: Result<TreeIndex>)
    ensures r.Ok? <==> TreeAcceptable(file, start)
    ensures r.Ok? ==>
      && Indexes(r.value.entries, file, ParseNodes(file, StoredNodeCount(file)).value.0)
      && r.value.sourceGameCount == StoredGameCount(file) && r.value.maxRootPly == StoredCap(file)
    ensures r.Err? ==> r == Err(IoFailure)
  {
    hide NodesOk, ParseNodes, ContinuationOk, ContinuationsAt, EntryOf, Indexes, Parsed, FieldsAt, NodeAt, NodeFollows, FixedAt;
    if |file| < HEADER_SIZE || file[..8] != MAGIC {
      return Err(IoFailure);
    }
    var version := ReadFixed(file, 8, 4);
    var maxRootPly := ReadFixed(file, 12, 2);
    var sourceGameCount := ReadFixed(file, 14, 8);
    var nodeCount := ReadFixed(file, 22, 8);
    if version.value != FORMAT_VERSION || nodeCount.value > (|file| - HEADER_SIZE) / MINIMUM_NODE_SIZE {
      return Err(IoFailure);
    }
    var entries: seq<NodeEntry> := [];
    var offset: nat, completeCount: nat := HEADER_SIZE, 0;
    ghost var nodes: seq<Node> := [];
    NothingParsed(file, start);
    for k := 0 to nodeCount.value
      invariant Parsed(file, start, k, nodes, offset) && |entries| == |nodes| == k
      invariant k > 0 ==> entries[k - 1].hash == nodes[k - 1].hash
      invariant completeCount == 0 <==> forall i :: 0 <= i < k ==> !nodes[i].complete
      invariant Indexes(entries, file, nodes)
    {
      ParseStep(file, start, k, nodes, offset);
      NodeStarts(file, offset, nodes, start);
      var header := ReadFields(NODE, file, offset);
      if header.None? {
        return Err(IoFailure);
      }
      var h, next := header.value.0, header.value.1;
      if h[1] == 0 || h[1] > U32_MAX || h[2] > U32_MAX || h[3] > 1 || (k > 0 && entries[k - 1].hash >= h[0]) {
        return Err(IoFailure);
      }
      var complete := h[3] == 1;
      if complete && (h[0] != start || h[1] != sourceGameCount.value || completeCount != 0) {
        return Err(IoFailure);
      }
      var end := CheckContinuations(file, next, h[2], PlyCap(complete, maxRootPly.value), h[1]);
      if end.None? {
        return Err(IoFailure);
      }
      ghost var node := NodeAt(file, offset).value.0;
      var entry := NodeEntry(h[0], h[1], next, h[2], complete);
      IndexGrows(entries, file, nodes, entry, node);
      assert forall i :: 0 <= i < k ==> (nodes + [node])[i] == nodes[i];
      assert (nodes + [node])[k] == node;
      completeCount := completeCount + if complete then 1 else 0;
      entries := entries + [entry];
      nodes := nodes + [node];
      offset := end.value;
    }
    ParsedAll(file, start, nodes, offset);
    if offset != |file| {
      return Err(IoFailure);
    }
    return Ok(TreeIndex(entries, sourceGameCount.value, maxRootPly.value));
  }

  /** What the reader of one node has to check, in terms of its header and its continuations. */
  lemma NodeStarts(file: TreeFile, offset: nat, nodes: seq<Node>, start: nat)
    ensures
      var header, node := FieldsAt(NODE, file, offset), NodeAt(file, offset);
      && (header.None? ==> node.None?)
      && (header.Some? && header.value.0[3] > 1 ==> node.None?)
      && (header.Some? && header.value.0[3] <= 1 ==>
            var h, stored := header.value.0, ContinuationsAt(file, header.value.1, header.value.0[2]);
            && (stored.None? ==> node.None?)
            && (stored.Some? ==>
                  && node == Some((Node(h[0], h[1], h[3] == 1, stored.value.0), stored.value.1))
                  && EntryOf(NodeEntry(h[0], h[1], header.value.1, h[2], h[3] == 1), file, node.value.0)
                  && (NodeFollows(nodes, node.value.0, StoredCap(file), StoredGameCount(file), start) <==>
                        && 0 < h[1] <= U32_MAX && h[2] <= U32_MAX
                        && (nodes != [] ==> nodes[|nodes| - 1].hash < h[0])
                        && (h[3] == 1 ==> h[0] == start && h[1] == StoredGameCount(file) && forall i :: 0 <= i < |nodes| ==> !nodes[i].complete)
                        && AllOk(stored.value.0, PlyCap(h[3] == 1, StoredCap(file)), h[1]))))
  {
    hide ContinuationsAt, FieldsAt, ContinuationOk, StoredCap, StoredGameCount;
  }

  lemma NothingParsed(file: TreeFile, start: nat)
    ensures Parsed(file, start, 0, [], HEADER_SIZE) && Indexes([], file, [])
  {
  }

  lemma ParsedAll(file: TreeFile, start: nat, nodes: seq<Node>, offset: nat)
    requires HeaderOk(file) && Parsed(file, start, StoredNodeCount(file), nodes, offset)
    ensures TreeAcceptable(file, start) <==> offset == |file|
    ensures ParseNodes(file, StoredNodeCount(file)) == Some((nodes, offset))
  {
  }

  // Queries.

  lemma {:induction false} HashesRise(nodes: seq<Node>, maxRootPly: nat, sourceGameCount: nat, start: nat)
    requires NodesOk(nodes, maxRootPly, sourceGameCount, start)
    ensures forall i, j :: 0 <= i < j < |nodes| ==> nodes[i].hash < nodes[j].hash
    ensures forall i :: 0 <= i < |nodes| ==> ContinuationsOk(nodes[i], maxRootPly)
  {
    hide ContinuationsOk;
    if nodes != [] {
      var n := |nodes| - 1;
      HashesRise(nodes[..n], maxRootPly, sourceGameCount, start);
      forall i | 0 <= i < n
        ensures nodes[i] == nodes[..n][i] && nodes[i].hash < nodes[n].hash
      {
        assert nodes[..n][i].hash <= nodes[..n][n - 1].hash;
      }
    }
  }

  function RowsOfNode(node: Node): (rows: seq<StatRow>)
    ensures |rows| == |node.continuations|
  {
    seq(|node.continuations|, i requires 0 <= i < |node.continuations| =>
      var c := node.continuations[i]; RowOf(Triple(0, c.move, c.child), c.agg, c.transposition))
  }

  /** Linear search for a node. */
  function FindNode(nodes: seq<Node>, hash: nat): Option<Node> {
    if nodes == [] then None else if nodes[0].hash == hash then Some(nodes[0]) else FindNode(nodes[1..], hash)
  }

  lemma {:induction false} FindNodeFinds(nodes: seq<Node>, hash: nat)
    ensures FindNode(nodes, hash).None? ==> forall i :: 0 <= i < |nodes| ==> nodes[i].hash != hash
    ensures FindNode(nodes, hash).Some? ==> FindNode(nodes, hash).value in nodes && FindNode(nodes, hash).value.hash == hash
    ensures (forall i, j :: 0 <= i < j < |nodes| ==> nodes[i].hash < nodes[j].hash)
            ==> forall i :: 0 <= i < |nodes| && nodes[i].hash == hash ==> FindNode(nodes, hash) == Some(nodes[i])
  {
    if nodes != [] {
      FindNodeFinds(nodes[1..], hash);
      forall i | 0 < i < |nodes|
        ensures nodes[i] == nodes[1..][i - 1]
      {
      }
    }
  }

  ghost function NodesOf(file: TreeFile): seq<Node>
    requires ParseNodes(file, StoredNodeCount(file)).Some?
  {
    ParseNodes(file, StoredNodeCount(file)).value.0
  }

  /** An index loaded from a file by open(). */
  ghost predicate LoadedFrom(index: TreeIndex, file: TreeFile, start: nat) {
    && TreeAcceptable(file, start) && Indexes(index.entries, file, NodesOf(file))
    && index.sourceGameCount == StoredGameCount(file) && index.maxRootPly == StoredCap(file)
  }

  lemma EntryKeysRise(index: TreeIndex, file: TreeFile, start: nat)
    requires LoadedFrom(index, file, start)
    ensures KeysAscend(Keys(index.entries, (e: NodeEntry) => e.hash))
    ensures forall i, j :: 0 <= i < j < |NodesOf(file)| ==> NodesOf(file)[i].hash < NodesOf(file)[j].hash
    ensures forall i :: 0 <= i < |NodesOf(file)| ==> ContinuationsOk(NodesOf(file)[i], StoredCap(file))
  {
    hide NodesOk, ContinuationsAt, HeaderOk, ParseNodes, ContinuationsOk;
    HashesRise(NodesOf(file), StoredCap(file), StoredGameCount(file), start);
  }

  /** The binary search all three node queries start with. */
  method NodePosition(index: TreeIndex, hash: nat, ghost file: TreeFile, ghost start: nat) returns (k: Option<nat>)
    requires LoadedFrom(index, file, start)
    ensures k.None? <==> FindNode(NodesOf(file), hash).None?
    ensures k.Some? ==> k.value < |index.entries| && FindNode(NodesOf(file), hash) == Some(NodesOf(file)[k.value])
  {
    hide NodesOk, ContinuationsAt, HeaderOk, ParseNodes, ContinuationsOk, FindNode;
    EntryKeysRise(index, file, start);
    var position := LowerBound(index.entries, (e: NodeEntry) => e.hash, hash);
    FindNodeFinds(NodesOf(file), hash);
    if position == |index.entries| || index.entries[position].hash != hash {
      return None;
    }
    return Some(position);
  }

  /** query_opening_stats: the continuations of the node, read back from the file. */
  method QueryTree(index: TreeIndex, file: TreeFile, hash: nat, ghost start: nat) returns (r: Result<seq<StatRow>>)
    requires LoadedFrom(index, file, start)
    ensures r == Ok(match FindNode(NodesOf(file), hash) case None => [] case Some(node) => RowsOfNode(node))
  {
    hide NodesOk, ParseNodes, FindNode, ContinuationOk, ContinuationAt, RowOf, HeaderOk;
    var k := NodePosition(index, hash, file, start);
    if k.None? {
      return Ok([]);
    }
    EntryKeysRise(index, file, start);
    var e := index.entries[k.value];
    ghost var node := NodesOf(file)[k.value];
    var rows: seq<StatRow>, next := [], e.offset;
    for i := 0 to e.continuationCount
      invariant rows == RowsOfNode(node)[..i]
      invariant ContinuationsAt(file, e.offset, i).Some? && ContinuationsAt(file, e.offset, i).value.1 == next
    {
      NextContinuation(file, e.offset, i, e.continuationCount);
      var row := ReadContinuation(file, next, PlyCap(e.complete, index.maxRootPly), e.gameCount);
      rows, next := rows + [row.value.0], row.value.1;
    }
    assert RowsOfNode(node)[..|node.continuations|] == RowsOfNode(node);
    return Ok(rows);
  }

  method IsComplete(index: TreeIndex, hash: nat, ghost file: TreeFile, ghost start: nat) returns (complete: bool)
    requires LoadedFrom(index, file, start)
    ensures complete == (FindNode(NodesOf(file), hash).Some? && FindNode(NodesOf(file), hash).value.complete)
  {
    hide NodesOk, ParseNodes, FindNode, TreeAcceptable, ContinuationsAt, HeaderOk;
    var k := NodePosition(index, hash, file, start);
    return k.Some? && index.entries[k.value].complete;
  }

  // What the writer produces is what the reader reads.

  /** The words a field of a record can hold. */
  predicate ContinuationFits(c: Continuation) {
    var a := c.agg;
    && c.move <= U16_MAX && c.child <= U64_MAX && c.transposition <= U64_MAX
    && a.rootPly <= U64_MAX && a.frequency <= U64_MAX && a.whiteWins <= U64_MAX && a.draws <= U64_MAX && a.blackWins <= U64_MAX
    && 0 <= a.whiteEloSum <= U64_MAX && a.whiteEloCount <= U64_MAX && 0 <= a.blackEloSum <= U64_MAX && a.blackEloCount <= U64_MAX
    && a.ecoMin <= U64_MAX && a.ecoMax <= U64_MAX
  }

  predicate NodeFits(node: Node) {
    && node.hash <= U64_MAX && node.gameCount <= U64_MAX && |node.continuations| <= U64_MAX
    && forall i :: 0 <= i < |node.continuations| ==> ContinuationFits(node.continuations[i])
  }

  predicate NodesFit(nodes: seq<Node>) {
    forall i :: 0 <= i < |nodes| ==> NodeFits(nodes[i])
  }

  /** A continuation as it comes back: the two weights pass through doubles. */
  function StoredContinuation(c: Continuation): Continuation {
    c.(agg := c.agg.(weightedContrib := HalvesOf(DoubleWord(c.agg.weightedContrib)), eloWeight := HalvesOf(DoubleWord(c.agg.eloWeight))))
  }

  function StoredContinuations(cs: seq<Continuation>): (r: seq<Continuation>)
    ensures |r| == |cs|
  {
    seq(|cs|, i requires 0 <= i < |cs| => StoredContinuation(cs[i]))
  }

  function StoredNode(node: Node): Node {
    node.(continuations := StoredContinuations(node.continuations))
  }

  function StoredNodes(nodes: seq<Node>): (r: seq<Node>)
    ensures |r| == |nodes|
  {
    seq(|nodes|, i requires 0 <= i < |nodes| => StoredNode(nodes[i]))
  }

  lemma ContinuationIsRead(c: Continuation, file: TreeFile, offset: nat)
    requires ContinuationFits(c) && Holds(file, offset, EncodeContinuation(c))
    ensures ContinuationAt(file, offset) == Some((StoredContinuation(c), offset + |EncodeContinuation(c)|))
  {
    hide EncodeFields, FieldsAt, HalvesOf, DoubleWord, Holds;
    ValuesFit(c);
    FieldsAreRead(CONTINUATION, ContinuationValues(c), file, offset);
  }

  lemma ValuesFit(c: Continuation)
    requires ContinuationFits(c)
    ensures FieldsFit(CONTINUATION, ContinuationValues(c))
  {
    hide DoubleWord;
    WordCapacities();
  }

  lemma {:induction false} ContinuationsAreRead(cs: seq<Continuation>, file: TreeFile, offset: nat)
    requires forall i :: 0 <= i < |cs| ==> ContinuationFits(cs[i])
    requires Holds(file, offset, EncodeContinuations(cs))
    ensures ContinuationsAt(file, offset, |cs|) == Some((StoredContinuations(cs), offset + |EncodeContinuations(cs)|))
    decreases |cs|
  {
    hide ContinuationFits, EncodeContinuation, StoredContinuation, ContinuationAt, Holds;
    if cs != [] {
      var front, last := cs[..|cs| - 1], cs[|cs| - 1];
      HoldsConcat(file, offset, EncodeContinuations(front), EncodeContinuation(last));
      ContinuationsAreRead(front, file, offset);
      ContinuationIsRead(last, file, offset + |EncodeContinuations(front)|);
      assert StoredContinuations(cs) == StoredContinuations(front) + [StoredContinuation(last)];
    }
  }

  lemma NodeIsRead(node: Node, file: TreeFile, offset: nat)
    requires NodeFits(node) && Holds(file, offset, EncodeNode(node))
    ensures NodeAt(file, offset) == Some((StoredNode(node), offset + |EncodeNode(node)|))
  {
    hide EncodeFields, FieldsAt, EncodeContinuations, ContinuationsAt, StoredContinuations, Holds, ContinuationFits;
    var header := EncodeFields(NODE, NodeValues(node));
    HoldsConcat(file, offset, header, EncodeContinuations(node.continuations));
    NodeValuesFit(node);
    FieldsAreRead(NODE, NodeValues(node), file, offset);
    ContinuationsAreRead(node.continuations, file, offset + |header|);
  }

  lemma NodeValuesFit(node: Node)
    requires NodeFits(node)
    ensures FieldsFit(NODE, NodeValues(node))
  {
    hide ContinuationFits;
    WordCapacities();
  }

  lemma {:induction false} NodesAreRead(nodes: seq<Node>, file: TreeFile)
    requires NodesFit(nodes) && Holds(file, HEADER_SIZE, EncodeNodes(nodes))
    ensures ParseNodes(file, |nodes|) == Some((StoredNodes(nodes), HEADER_SIZE + |EncodeNodes(nodes)|))
    decreases |nodes|
  {
    hide NodeFits, EncodeNode, StoredNode, NodeAt, Holds;
    if nodes != [] {
      var front, last := nodes[..|nodes| - 1], nodes[|nodes| - 1];
      HoldsConcat(file, HEADER_SIZE, EncodeNodes(front), EncodeNode(last));
      NodesAreRead(front, file);
      NodeIsRead(last, file, HEADER_SIZE + |EncodeNodes(front)|);
      assert StoredNodes(nodes) == StoredNodes(front) + [StoredNode(last)];
    }
  }

  lemma HeaderIsRead(file: TreeFile, maxRootPly: nat, sourceGameCount: nat, nodeCount: nat)
    requires Holds(file, 0, EncodeHeader(maxRootPly, sourceGameCount, nodeCount))
    ensures |EncodeHeader(maxRootPly, sourceGameCount, nodeCount)| == HEADER_SIZE <= |file| && file[..8] == MAGIC
    ensures StoredVersion(file) == FORMAT_VERSION
    ensures maxRootPly <= U16_MAX ==> StoredCap(file) == maxRootPly
    ensures sourceGameCount <= U64_MAX ==> StoredGameCount(file) == sourceGameCount
    ensures nodeCount <= U64_MAX ==> StoredNodeCount(file) == nodeCount
  {
    hide Holds, LittleEndian, FixedAt;
    var version, cap := LittleEndian(FORMAT_VERSION, 4), LittleEndian(maxRootPly, 2);
    var games, count := LittleEndian(sourceGameCount, 8), LittleEndian(nodeCount, 8);
    HeaderBytes(maxRootPly, sourceGameCount, nodeCount);
    HoldsConcat(file, 0, MAGIC + version + cap + games, count);
    HoldsConcat(file, 0, MAGIC + version + cap, games);
    HoldsConcat(file, 0, MAGIC + version, cap);
    HoldsConcat(file, 0, MAGIC, version);
    WordCapacities();
    FixedIsStored(file, 8, 4, FORMAT_VERSION);
    if maxRootPly <= U16_MAX {
      FixedIsStored(file, 12, 2, maxRootPly);
    }
    if sourceGameCount <= U64_MAX {
      FixedIsStored(file, 14, 8, sourceGameCount);
    }
    if nodeCount <= U64_MAX {
      FixedIsStored(file, 22, 8, nodeCount);
    }
    HeldFront(file, EncodeHeader(maxRootPly, sourceGameCount, nodeCount));
    HeldFront(file, MAGIC);
  }

  lemma HeaderBytes(maxRootPly: nat, sourceGameCount: nat, nodeCount: nat)
    ensures EncodeHeader(maxRootPly, sourceGameCount, nodeCount)
         == MAGIC + LittleEndian(FORMAT_VERSION, 4) + LittleEndian(maxRootPly, 2) + LittleEndian(sourceGameCount, 8) + LittleEndian(nodeCount, 8)
  {
    hide LittleEndian;
    var values := HeaderValues(maxRootPly, sourceGameCount, nodeCount);
    assert HEADER[1..] == [Fixed(2), Fixed(8), Fixed(8)] && values[1..] == [maxRootPly, sourceGameCount, nodeCount];
    assert [Fixed(2), Fixed(8), Fixed(8)][1..] == [Fixed(8), Fixed(8)] && [maxRootPly, sourceGameCount, nodeCount][1..] == [sourceGameCount, nodeCount];
    assert [Fixed(8), Fixed(8)][1..] == [Fixed(8)] && [sourceGameCount, nodeCount][1..] == [nodeCount];
    var last := LittleEndian(nodeCount, 8);
    assert EncodeFields([Fixed(8)], [nodeCount]) == last + [] == last;
    assert EncodeFields([Fixed(8), Fixed(8)], [sourceGameCount, nodeCount]) == LittleEndian(sourceGameCount, 8) + last;
    assert EncodeFields([Fixed(2), Fixed(8), Fixed(8)], [maxRootPly, sourceGameCount, nodeCount])
        == LittleEndian(maxRootPly, 2) + (LittleEndian(sourceGameCount, 8) + last);
  }

  lemma HeldFront(file: TreeFile, s: seq<byte>)
    requires Holds(file, 0, s)
    ensures |file| >= |s| && file[..|s|] == s
  {
  }

  lemma {:induction false} StoredNodesOk(nodes: seq<Node>, maxRootPly: nat, sourceGameCount: nat, start: nat)
    ensures NodesOk(StoredNodes(nodes), maxRootPly, sourceGameCount, start) <==> NodesOk(nodes, maxRootPly, sourceGameCount, start)
    decreases |nodes|
  {
    if nodes != [] {
      var n := |nodes| - 1;
      StoredNodesOk(nodes[..n], maxRootPly, sourceGameCount, start);
      assert StoredNodes(nodes)[..n] == StoredNodes(nodes[..n]);
      StoredFollows(nodes[..n], nodes[n], maxRootPly, sourceGameCount, start);
    }
  }

  lemma StoredFollows(nodes: seq<Node>, node: Node, maxRootPly: nat, sourceGameCount: nat, start: nat)
    ensures NodeFollows(StoredNodes(nodes), StoredNode(node), maxRootPly, sourceGameCount, start)
       <==> NodeFollows(nodes, node, maxRootPly, sourceGameCount, start)
  {
    hide HalvesOf, DoubleWord;
    forall i | 0 <= i < |node.continuations|
      ensures ContinuationOk(StoredNode(node).continuations[i], PlyCap(node.complete, maxRootPly), node.gameCount)
         <==> ContinuationOk(node.continuations[i], PlyCap(node.complete, maxRootPly), node.gameCount)
    {
    }
    hide ContinuationOk;
    assert forall i :: 0 <= i < |nodes| ==> StoredNodes(nodes)[i].complete == nodes[i].complete;
  }

  /** Weights that doubles hold exactly. */
  predicate ExactNode(node: Node) {
    forall i :: 0 <= i < |node.continuations| ==>
      Magnitude(node.continuations[i].agg.weightedContrib) < 2 * FRACTION && Magnitude(node.continuations[i].agg.eloWeight) < 2 * FRACTION
  }

  predicate ExactNodes(nodes: seq<Node>) {
    forall i :: 0 <= i < |nodes| ==> ExactNode(nodes[i])
  }

  lemma ExactIsStored(nodes: seq<Node>)
    requires ExactNodes(nodes)
    ensures StoredNodes(nodes) == nodes
  {
    forall i | 0 <= i < |nodes|
      ensures StoredNode(nodes[i]) == nodes[i]
    {
      ExactNodeIsStored(nodes[i]);
    }
  }

  lemma ExactNodeIsStored(node: Node)
    requires ExactNode(node)
    ensures StoredNode(node) == node
  {
    hide HalvesOf, DoubleWord;
    forall i | 0 <= i < |node.continuations|
      ensures StoredContinuation(node.continuations[i]) == node.continuations[i]
    {
      DoublesAreExact(node.continuations[i].agg.weightedContrib);
      DoublesAreExact(node.continuations[i].agg.eloWeight);
    }
  }

  /** The written bytes are read back as the nodes, and accepted exactly when the nodes are; weights below 2^53 come back unchanged. */
  lemma WrittenIsRead(nodes: seq<Node>, maxRootPly: nat, sourceGameCount: nat, start: nat)
    requires NodesFit(nodes) && |nodes| <= U64_MAX && maxRootPly <= U16_MAX && sourceGameCount <= U64_MAX
    ensures
      var file := FileOf(nodes, maxRootPly, sourceGameCount);
      && StoredCap(file) == maxRootPly && StoredGameCount(file) == sourceGameCount && StoredNodeCount(file) == |nodes|
      && (TreeAcceptable(file, start) <==> NodesOk(nodes, maxRootPly, sourceGameCount, start))
      && ParseNodes(file, |nodes|) == Some((StoredNodes(nodes), |file|))
      && (ExactNodes(nodes) ==> StoredNodes(nodes) == nodes)
  {
    hide NodesOk, ParseNodes, EncodeNodes, EncodeHeader, Holds, NodesFit, ExactNodes, StoredNodes, StoredCap, StoredGameCount, StoredVersion, StoredNodeCount;
    var file := FileOf(nodes, maxRootPly, sourceGameCount);
    var header := EncodeHeader(maxRootPly, sourceGameCount, |nodes|);
    WholeFile(file);
    HoldsConcat(file, 0, header, EncodeNodes(nodes));
    HeaderIsRead(file, maxRootPly, sourceGameCount, |nodes|);
    NodesAreRead(nodes, file);
    NodesTakeRoom(file, |nodes|);
    StoredNodesOk(nodes, maxRootPly, sourceGameCount, start);
    if ExactNodes(nodes) {
      ExactIsStored(nodes);
    }
  }

  lemma GameCountIsRead(nodes: seq<Node>, maxRootPly: nat, sourceGameCount: nat)
    requires sourceGameCount <= U64_MAX
    ensures StoredGameCount(FileOf(nodes, maxRootPly, sourceGameCount)) == sourceGameCount
  {
    hide EncodeNodes, EncodeHeader, Holds, StoredGameCount;
    var file := FileOf(nodes, maxRootPly, sourceGameCount);
    WholeFile(file);
    HoldsConcat(file, 0, EncodeHeader(maxRootPly, sourceGameCount, |nodes|), EncodeNodes(nodes));
    HeaderIsRead(file, maxRootPly, sourceGameCount, |nodes|);
  }

  lemma WholeFile(file: TreeFile)
    ensures Holds(file, 0, file)
  {
  }
}
