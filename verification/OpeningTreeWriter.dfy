/** Child visit counts and the streaming merge-join that writes the opening tree file. */
module OpeningTreeWriter {
  import opened Words
  import opened SortedRuns
  import opened Aggregation
  import opened OpeningStats
  import opened OpeningTreeBytes
  import opened OpeningTreeFile
  import BufferedWriter
  import opened PostingsLookup

  const REFERENCE_SIZE: nat := 12

  /** A sorted stream of positive counts by hash. */
  predicate CountsOk(counts: seq<Keyed<nat>>) {
    && RunSorted(counts)
    && forall i :: 0 <= i < |counts| ==> counts[i].value > 0 && counts[i].key == HashKey(counts[i].key.first)
  }

  /** Linear search, the reference for both lookups. */
  function CountOf(counts: seq<Keyed<nat>>, hash: nat): Option<nat> {
    Total(Plus, counts, HashKey(hash))
  }

  lemma CountFinds(counts: seq<Keyed<nat>>, hash: nat)
    requires CountsOk(counts)
    ensures forall i :: 0 <= i < |counts| && counts[i].key.first == hash ==> CountOf(counts, hash) == Some(counts[i].value)
    ensures CountOf(counts, hash).Some? ==> exists i :: 0 <= i < |counts| && counts[i].key.first == hash
    ensures CountOf(counts, hash).Some? ==> CountOf(counts, hash).value > 0
    ensures KeysAscend(Keys(counts, (r: Keyed<nat>) => r.key.first))
  {
    SortedTotal(Plus, counts, HashKey(hash));
    forall i, j | 0 <= i < j < |counts|
      ensures counts[i].key.first < counts[j].key.first
    {
      assert Less(counts[i].key, counts[j].key);
    }
  }

  /** child_frequency: binary search in the stream on disk. */
  method ChildFrequency(counts: seq<Keyed<nat>>, hash: nat) returns (r: Option<nat>)
    requires CountsOk(counts)
    ensures r == CountOf(counts, hash)
  {
    hide Total, CountOf;
    CountFinds(counts, hash);
    var position := LowerBound(counts, (e: Keyed<nat>) => e.key.first, hash);
    if position == |counts| || counts[position].key.first != hash {
      return None;
    }
    return Some(counts[position].value);
  }

  /** The in-memory table of the counts that edges refer to. */
  datatype Table = Table(hashes: seq<nat>, frequencies: seq<nat>)

  predicate TableOk(t: Table) {
    |t.hashes| == |t.frequencies| && KeysAscend(t.hashes)
  }

  /** std::ranges::unique on sorted hashes. */
  method Unique(keys: seq<Triple>) returns (unique: seq<nat>)
    requires Sorted(keys) && forall i :: 0 <= i < |keys| ==> keys[i] == HashKey(keys[i].first)
    ensures KeysAscend(unique) && forall h :: h in unique <==> HashKey(h) in keys
  {
    unique := [];
    for k := 0 to |keys|
      invariant KeysAscend(unique)
      invariant forall h :: h in unique <==> HashKey(h) in keys[..k]
      invariant if k == 0 then unique == [] else unique != [] && unique[|unique| - 1] == keys[k - 1].first
    {
      var h := keys[k].first;
      assert keys[..k + 1] == keys[..k] + [HashKey(h)];
      if unique == [] || unique[|unique| - 1] != h {
        assert k > 0 ==> !Less(keys[k], keys[k - 1]);
        unique := unique + [h];
      }
    }
    assert keys[..|keys|] == keys;
  }

  function HashKeys(hashes: seq<nat>): (keys: seq<Triple>)
    ensures |keys| == |hashes|
  {
    seq(|hashes|, i requires 0 <= i < |hashes| => HashKey(hashes[i]))
  }

  lemma SortedHashKeys(hashes: seq<nat>)
    ensures forall i :: 0 <= i < |Sort(HashKeys(hashes))| ==> Sort(HashKeys(hashes))[i] == HashKey(Sort(HashKeys(hashes))[i].first)
    ensures forall h :: HashKey(h) in Sort(HashKeys(hashes)) <==> h in hashes
  {
    hide Sort;
    var unsorted := HashKeys(hashes);
    var keys := Sort(unsorted);
    SortSorts(unsorted);
    forall i | 0 <= i < |keys|
      ensures keys[i] == HashKey(keys[i].first)
    {
      assert keys[i] in Elements(keys);
      assert keys[i] in Elements(unsorted);
    }
    forall h
      ensures HashKey(h) in keys <==> h in hashes
    {
      assert HashKey(h) in Elements(keys) <==> HashKey(h) in Elements(unsorted);
      if h in hashes {
        var i :| 0 <= i < |hashes| && hashes[i] == h;
        assert unsorted[i] == HashKey(h);
      }
    }
  }

  method SortedUnique(hashes: seq<nat>) returns (unique: seq<nat>)
    ensures KeysAscend(unique) && forall h :: h in unique <==> h in hashes
  {
    hide Sort, HashKeys;
    SortSorts(HashKeys(hashes));
    SortedHashKeys(hashes);
    unique := Unique(Sort(HashKeys(hashes)));
  }

  /** The children that edges refer to. */
  function ChildHashes(edges: seq<Keyed<Agg>>): (hashes: seq<nat>)
    ensures |hashes| == |edges|
  {
    seq(|edges|, i requires 0 <= i < |edges| => edges[i].key.third)
  }

  function FrequencyOf(counts: seq<Keyed<nat>>, hash: nat): nat {
    var c := CountOf(counts, hash);
    if c.Some? then c.value else 0
  }

  /** load_referenced_child_frequencies: a merge join of the referenced hashes with the count stream, if it fits into memory. */
  method LoadReferenced(edges: seq<Keyed<Agg>>, counts: seq<Keyed<nat>>, memoryLimit: nat) returns (t: Table)
    requires CountsOk(counts)
    ensures |edges| > memoryLimit / REFERENCE_SIZE ==> t.hashes == []
    ensures TableOk(t)
    ensures t.hashes != [] ==> forall i :: 0 <= i < |edges| ==> edges[i].key.third in t.hashes
    ensures forall i :: 0 <= i < |t.hashes| ==> t.frequencies[i] == FrequencyOf(counts, t.hashes[i])
  {
    hide Total, CountOf, FrequencyOf;
    if |edges| > memoryLimit / REFERENCE_SIZE {
      return Table([], []);
    }
    var hashes := SortedUnique(ChildHashes(edges));
    var frequencies := new nat[|hashes|](_ => 0);
    var referenced := 0;
    var index := 0;
    while index < |counts| && referenced < |hashes|
      invariant 0 <= index <= |counts| && 0 <= referenced <= |hashes|
      invariant forall i :: 0 <= i < referenced ==> frequencies[i] == FrequencyOf(counts, hashes[i])
      invariant forall i :: referenced <= i < |hashes| ==> frequencies[i] == 0
      invariant referenced < |hashes| ==> forall j :: 0 <= j < index ==> counts[j].key.first < hashes[referenced]
    {
      var record := counts[index];
      while referenced < |hashes| && hashes[referenced] < record.key.first
        invariant 0 <= referenced <= |hashes|
        invariant forall i :: 0 <= i < referenced ==> frequencies[i] == FrequencyOf(counts, hashes[i])
        invariant forall i :: referenced <= i < |hashes| ==> frequencies[i] == 0
        invariant referenced < |hashes| ==> forall j :: 0 <= j < index ==> counts[j].key.first < hashes[referenced]
      {
        Skipped(counts, index, hashes[referenced]);
        referenced := referenced + 1;
      }
      if referenced < |hashes| && hashes[referenced] == record.key.first {
        Matched(counts, index, hashes[referenced]);
        frequencies[referenced] := record.value;
        referenced := referenced + 1;
      }
      Passed(counts, index, hashes, referenced);
      index := index + 1;
    }
    forall i | referenced <= i < |hashes|
      ensures frequencies[i] == FrequencyOf(counts, hashes[i])
    {
      Unmatched(counts, hashes, referenced, i);
    }
    forall i | 0 <= i < |edges|
      ensures edges[i].key.third in hashes
    {
      assert ChildHashes(edges)[i] == edges[i].key.third;
    }
    return Table(hashes, frequencies[..]);
  }

  lemma Skipped(counts: seq<Keyed<nat>>, index: nat, hash: nat)
    requires CountsOk(counts) && index < |counts| && hash < counts[index].key.first
    requires forall j :: 0 <= j < index ==> counts[j].key.first < hash
    ensures FrequencyOf(counts, hash) == 0
  {
    CountFinds(counts, hash);
    forall j | 0 <= j < |counts|
      ensures counts[j].key.first != hash
    {
      if index < j {
        assert Less(counts[index].key, counts[j].key);
      }
    }
  }

  lemma Matched(counts: seq<Keyed<nat>>, index: nat, hash: nat)
    requires CountsOk(counts) && index < |counts| && hash == counts[index].key.first
    ensures FrequencyOf(counts, hash) == counts[index].value
  {
    CountFinds(counts, hash);
  }

  lemma Passed(counts: seq<Keyed<nat>>, index: nat, hashes: seq<nat>, referenced: nat)
    requires CountsOk(counts) && index < |counts| && KeysAscend(hashes) && referenced <= |hashes|
    requires referenced < |hashes| ==> counts[index].key.first < hashes[referenced] || (referenced > 0 && counts[index].key.first == hashes[referenced - 1])
    requires referenced < |hashes| ==> forall j :: 0 <= j < index ==> counts[j].key.first < hashes[referenced] || Less(counts[j].key, counts[index].key)
    ensures referenced < |hashes| ==> forall j :: 0 <= j < index + 1 ==> counts[j].key.first < hashes[referenced]
  {
    if referenced < |hashes| {
      forall j | 0 <= j < index
        ensures counts[j].key.first <= counts[index].key.first
      {
        assert Less(counts[j].key, counts[index].key);
      }
    }
  }

  lemma Unmatched(counts: seq<Keyed<nat>>, hashes: seq<nat>, referenced: nat, i: nat)
    requires CountsOk(counts) && KeysAscend(hashes) && referenced <= i < |hashes|
    requires forall j :: 0 <= j < |counts| ==> counts[j].key.first < hashes[referenced]
    ensures FrequencyOf(counts, hashes[i]) == 0
  {
    CountFinds(counts, hashes[i]);
    assert hashes[referenced] <= hashes[i];
  }

  /** referenced_child_frequency: a zero stands for a hash the stream did not contain. */
  method ReferencedFrequency(t: Table, hash: nat) returns (r: Option<nat>)
    requires TableOk(t)
    ensures r.Some? <==> exists i :: 0 <= i < |t.hashes| && t.hashes[i] == hash && t.frequencies[i] > 0
    ensures r.Some? ==> r.value > 0
    ensures forall i :: 0 <= i < |t.hashes| && t.hashes[i] == hash ==> r == Positive(t.frequencies[i])
  {
    assert KeysAscend(Keys(t.hashes, (h: nat) => h)) by { assert Keys(t.hashes, (h: nat) => h) == t.hashes; }
    var position := LowerBound(t.hashes, (h: nat) => h, hash);
    if position == |t.hashes| || t.hashes[position] != hash {
      return None;
    }
    if t.frequencies[position] == 0 {
      return None;
    }
    return Some(t.frequencies[position]);
  }

  /** The frequency write_index_file attaches to a child, whichever lookup it uses. */
  method Frequency(t: Table, counts: seq<Keyed<nat>>, ghost edges: seq<Keyed<Agg>>, hash: nat) returns (r: Option<nat>)
    requires CountsOk(counts) && TableOk(t) && exists i :: 0 <= i < |edges| && edges[i].key.third == hash
    requires t.hashes != [] ==> forall i :: 0 <= i < |edges| ==> edges[i].key.third in t.hashes
    requires forall i :: 0 <= i < |t.hashes| ==> t.frequencies[i] == FrequencyOf(counts, t.hashes[i])
    ensures r == CountOf(counts, hash)
  {
    hide Total, CountOf;
    CountFinds(counts, hash);
    if t.hashes == [] {
      r := ChildFrequency(counts, hash);
    } else {
      r := ReferencedFrequency(t, hash);
      assert hash in t.hashes;
      var i :| 0 <= i < |t.hashes| && t.hashes[i] == hash;
    }
  }

  // The merge join of roots and edges.

  function ContinuationOf(e: Keyed<Agg>, counts: seq<Keyed<nat>>): Continuation {
    Continuation(e.key.second, e.key.third, e.value, FrequencyOf(counts, e.key.third))
  }

  /** The edges of a root, in order. */
  function EdgesFrom(edges: seq<Keyed<Agg>>, root: nat): seq<Keyed<Agg>> {
    if edges == [] then []
    else EdgesFrom(edges[..|edges| - 1], root) + if edges[|edges| - 1].key.first == root then [edges[|edges| - 1]] else []
  }

  function Continuations(edges: seq<Keyed<Agg>>, counts: seq<Keyed<nat>>): (cs: seq<Continuation>)
    ensures |cs| == |edges|
  {
    seq(|edges|, i requires 0 <= i < |edges| => ContinuationOf(edges[i], counts))
  }

  function TreeNode(root: Keyed<nat>, edges: seq<Keyed<Agg>>, counts: seq<Keyed<nat>>, start: nat): Node {
    Node(root.key.first, root.value, root.key.first == start, Continuations(EdgesFrom(edges, root.key.first), counts))
  }

  /** The nodes of the written tree: one per root, with all of its edges. */
  function TreeNodes(roots: seq<Keyed<nat>>, edges: seq<Keyed<Agg>>, counts: seq<Keyed<nat>>, start: nat): (nodes: seq<Node>)
    ensures |nodes| == |roots|
  {
    seq(|roots|, i requires 0 <= i < |roots| => TreeNode(roots[i], edges, counts, start))
  }

  /** Every edge starts at a root. */
  predicate EdgesRooted(edges: seq<Keyed<Agg>>, roots: seq<Keyed<nat>>) {
    forall j :: 0 <= j < |edges| ==> IsRoot(roots, edges[j].key.first)
  }

  predicate IsRoot(roots: seq<Keyed<nat>>, hash: nat) {
    exists i :: 0 <= i < |roots| && roots[i].key.first == hash
  }

  predicate Attachable(e: Keyed<Agg>, counts: seq<Keyed<nat>>) {
    var frequency := CountOf(counts, e.key.third);
    frequency.Some? && frequency.value >= e.value.frequency
  }

  predicate AllAttachable(edges: seq<Keyed<Agg>>, counts: seq<Keyed<nat>>) {
    forall j :: 0 <= j < |edges| ==> Attachable(edges[j], counts)
  }

  /** The edges below j belong to roots below i, the others to root i or later ones. */
  predicate SplitAt(edges: seq<Keyed<Agg>>, roots: seq<Keyed<nat>>, i: nat, j: nat) {
    && i <= |roots| && j <= |edges|
    && (forall k :: 0 <= k < j ==> (i == |roots| || edges[k].key.first < roots[i].key.first))
    && (j < |edges| ==> i < |roots|)
    && (forall k :: j <= k < |edges| ==> i < |roots| && roots[i].key.first <= edges[k].key.first)
  }

  /** The edges of a root are consecutive. */
  lemma {:induction false} EdgesRange(edges: seq<Keyed<Agg>>, root: nat, from: nat, to: nat, n: nat)
    requires from <= to <= |edges| && n <= |edges|
    requires forall k :: 0 <= k < |edges| ==> (edges[k].key.first == root <==> from <= k < to)
    ensures EdgesFrom(edges[..n], root) == edges[from..if n < from then from else if n < to then n else to]
    decreases n
  {
    if n > 0 {
      EdgesRange(edges, root, from, to, n - 1);
      assert edges[..n][..n - 1] == edges[..n - 1] && edges[..n][n - 1] == edges[n - 1];
    }
  }

  lemma SplitAdvances(edges: seq<Keyed<Agg>>, roots: seq<Keyed<nat>>, i: nat, from: nat, to: nat)
    requires RunSorted(roots) && RunSorted(edges) && EdgesRooted(edges, roots) && RootsOk(roots)
    requires SplitAt(edges, roots, i, from) && i < |roots| && from <= to <= |edges|
    requires forall k :: from <= k < to ==> edges[k].key.first == roots[i].key.first
    requires to < |edges| ==> edges[to].key.first != roots[i].key.first
    ensures forall k :: 0 <= k < |edges| ==> (edges[k].key.first == roots[i].key.first <==> from <= k < to)
    ensures SplitAt(edges, roots, i + 1, to)
  {
    forall k | to <= k < |edges|
      ensures roots[i].key.first < edges[k].key.first
    {
      assert to < k ==> Less(edges[to].key, edges[k].key);
    }
    forall k | to <= k < |edges|
      ensures i + 1 < |roots| && roots[i + 1].key.first <= edges[k].key.first
    {
      assert IsRoot(roots, edges[k].key.first);
      var r :| 0 <= r < |roots| && roots[r].key.first == edges[k].key.first;
      if r < i {
        RootsRise(roots, r, i);
      }
      assert i < r;
      assert i + 1 < r ==> Less(roots[i + 1].key, roots[r].key);
    }
    if i + 1 < |roots| {
      RootsRise(roots, i, i + 1);
    }
  }

  predicate RootsOk(roots: seq<Keyed<nat>>) {
    forall i :: 0 <= i < |roots| ==> roots[i].key == HashKey(roots[i].key.first)
  }

  lemma RootsRise(roots: seq<Keyed<nat>>, i: nat, j: nat)
    requires RunSorted(roots) && RootsOk(roots) && i < j < |roots|
    ensures roots[i].key.first < roots[j].key.first
  {
    assert Less(roots[i].key, roots[j].key);
  }

  lemma SplitStarts(edges: seq<Keyed<Agg>>, roots: seq<Keyed<nat>>)
    requires RunSorted(roots) && EdgesRooted(edges, roots)
    ensures SplitAt(edges, roots, 0, 0)
  {
    if edges != [] {
      assert IsRoot(roots, edges[0].key.first);
      var r :| 0 <= r < |roots| && roots[r].key.first == edges[0].key.first;
    }
    forall k | 0 <= k < |edges|
      ensures 0 < |roots| && roots[0].key.first <= edges[k].key.first
    {
      assert IsRoot(roots, edges[k].key.first);
      var r :| 0 <= r < |roots| && roots[r].key.first == edges[k].key.first;
      assert 0 < r ==> Less(roots[0].key, roots[r].key);
    }
  }

  /** The node header and the continuations of one root. */
  method WriteNode(writer: BufferedWriter.BufferedFileWriter, root: Keyed<nat>, continuations: seq<Keyed<Agg>>, table: Table,
                   counts: seq<Keyed<nat>>, start: nat, ghost edges: seq<Keyed<Agg>>, ghost node: Node) returns (ok: bool)
    requires CountsOk(counts) && TableOk(table) && writer.Valid()
    requires table.hashes != [] ==> forall i :: 0 <= i < |edges| ==> edges[i].key.third in table.hashes
    requires forall i :: 0 <= i < |table.hashes| ==> table.frequencies[i] == FrequencyOf(counts, table.hashes[i])
    requires forall k :: 0 <= k < |continuations| ==> continuations[k] in edges
    requires node.hash == root.key.first && node.gameCount == root.value && node.complete == (root.key.first == start)
    requires |node.continuations| == |continuations|
    requires forall k :: 0 <= k < |continuations| ==> node.continuations[k] == ContinuationOf(continuations[k], counts)
    modifies writer
    ensures ok <==> AllAttachable(continuations, counts)
    ensures writer.Valid() && (ok ==> writer.Contents() == old(writer.Contents()) + EncodeNode(node))
  {
    hide CountOf, EncodeFields, EncodeContinuations, EncodeContinuation, CountsOk, FrequencyOf, TableOk;
    hide BufferedWriter.BufferedFileWriter.Contents, BufferedWriter.BufferedFileWriter.Valid;
    WriteFields(writer, NODE, [root.key.first, root.value, |continuations|, if root.key.first == start then 1 else 0]);
    ghost var front := writer.Contents();
    assert front == old(writer.Contents()) + EncodeFields(NODE, NodeValues(node));
    NoContinuations(node);
    for k := 0 to |continuations|
      invariant writer.Valid() && writer.Contents() == front + EncodeContinuations(node.continuations[..k])
      invariant forall m :: 0 <= m < k ==> Attachable(continuations[m], counts)
    {
      var e := continuations[k];
      var frequency := Frequency(table, counts, edges, e.key.third);
      if frequency.None? || frequency.value < e.value.frequency {
        assert !Attachable(continuations[k], counts);
        return false;
      }
      AttachedFrequency(counts, e.key.third);
      WriteContinuation(writer, Continuation(e.key.second, e.key.third, e.value, frequency.value));
      ContinuationWritten(node, k);
      ConcatRegroups(front, EncodeContinuations(node.continuations[..k]), EncodeContinuation(node.continuations[k]));
    }
    assert node.continuations[..|continuations|] == node.continuations;
    ConcatRegroups(old(writer.Contents()), EncodeFields(NODE, NodeValues(node)), EncodeContinuations(node.continuations));
    return true;
  }

  method WriteContinuation(writer: BufferedWriter.BufferedFileWriter, c: Continuation)
    requires writer.Valid()
    modifies writer
    ensures writer.Valid() && writer.Contents() == old(writer.Contents()) + EncodeContinuation(c)
  {
    hide EncodeFields, BufferedWriter.BufferedFileWriter.Contents, BufferedWriter.BufferedFileWriter.Valid;
    WriteFields(writer, CONTINUATION, ContinuationValues(c));
  }

  lemma ConcatRegroups(a: seq<byte>, b: seq<byte>, c: seq<byte>)
    ensures (a + b) + c == a + (b + c)
  {
  }

  /** The edges of one root, read off the edge stream. */
  method CollectEdges(edges: seq<Keyed<Agg>>, root: nat, from: nat) returns (continuations: seq<Keyed<Agg>>, j: nat)
    requires from <= |edges|
    ensures from <= j <= |edges| && continuations == edges[from..j]
    ensures forall k :: from <= k < j ==> edges[k].key.first == root
    ensures j < |edges| ==> edges[j].key.first != root
  {
    continuations, j := [], from;
    while j < |edges| && edges[j].key.first == root
      invariant from <= j <= |edges| && continuations == edges[from..j]
      invariant forall k :: from <= k < j ==> edges[k].key.first == root
    {
      continuations := continuations + [edges[j]];
      j := j + 1;
    }
  }

  /** write_index_file: reads roots and edges side by side; no edge is left behind, and the lookup does not matter. */
  method WriteIndex(roots: seq<Keyed<nat>>, edges: seq<Keyed<Agg>>, counts: seq<Keyed<nat>>, memoryLimit: nat,
                    maxRootPly: nat, sourceGameCount: nat, start: nat) returns (r: Result<TreeFile>)
    requires RunSorted(roots) && RootsOk(roots) && RunSorted(edges) && EdgesRooted(edges, roots) && CountsOk(counts)
    ensures r.Ok? <==> AllAttachable(edges, counts)
    ensures r.Ok? ==> r.value == FileOf(TreeNodes(roots, edges, counts, start), maxRootPly, sourceGameCount)
    ensures r.Err? ==> r == Err(IoFailure)
  {
    hide CountOf, EncodeNodes, EncodeNode, EncodeHeader, EncodeFields, RunSorted, RootsOk, EdgesRooted, CountsOk, SplitAt, FrequencyOf, TableOk;
    hide TreeNodes, TreeNode, Attachable, ContinuationOf, BufferedWriter.BufferedFileWriter.Valid;
    var writer := new BufferedWriter.BufferedFileWriter();
    WriteHeader(writer, maxRootPly, sourceGameCount, |roots|);
    ghost var header := writer.Contents();
    var table := LoadReferenced(edges, counts, memoryLimit);
    ghost var nodes := TreeNodes(roots, edges, counts, start);
    var j: nat := 0;
    SplitStarts(edges, roots);
    NothingWritten(header, nodes);
    for i := 0 to |roots|
      invariant fresh(writer) && writer.Valid()
      invariant j <= |edges| && SplitAt(edges, roots, i, j)
      invariant writer.Contents() == header + EncodeNodes(nodes[..i])
      invariant forall k :: 0 <= k < j ==> Attachable(edges[k], counts)
    {
      var root, from := roots[i], j;
      var continuations;
      continuations, j := CollectEdges(edges, root.key.first, from);
      RootCollected(edges, roots, counts, start, i, from, j);
      var written := WriteNode(writer, root, continuations, table, counts, start, edges, nodes[i]);
      PartAttachable(edges, from, j, counts);
      if !written {
        return Err(IoFailure);
      }
      NodeWritten(nodes, i);
      ConcatRegroups(header, EncodeNodes(nodes[..i]), EncodeNode(nodes[i]));
    }
    AllConsumed(edges, roots, j);
    assert nodes[..|roots|] == nodes;
    writer.Flush();
    assert writer.stream + [] == writer.stream;
    return Ok(writer.stream);
  }

  method WriteHeader(writer: BufferedWriter.BufferedFileWriter, maxRootPly: nat, sourceGameCount: nat, nodeCount: nat)
    requires writer.Valid() && writer.Contents() == []
    modifies writer
    ensures writer.Valid() && writer.Contents() == EncodeHeader(maxRootPly, sourceGameCount, nodeCount)
  {
    hide EncodeFields, BufferedWriter.BufferedFileWriter.Contents, BufferedWriter.BufferedFileWriter.Valid;
    writer.WriteBytes(MAGIC);
    assert writer.Contents() == [] + MAGIC == MAGIC;
    WriteFields(writer, HEADER, [FORMAT_VERSION, maxRootPly, sourceGameCount, nodeCount]);
  }

  /** The edges collected for root i are the continuations of the i-th node, and the rest belongs to later roots. */
  lemma RootCollected(edges: seq<Keyed<Agg>>, roots: seq<Keyed<nat>>, counts: seq<Keyed<nat>>, start: nat, i: nat, from: nat, j: nat)
    requires RunSorted(roots) && RunSorted(edges) && EdgesRooted(edges, roots) && RootsOk(roots)
    requires SplitAt(edges, roots, i, from) && i < |roots| && from <= j <= |edges|
    requires forall k :: from <= k < j ==> edges[k].key.first == roots[i].key.first
    requires j < |edges| ==> edges[j].key.first != roots[i].key.first
    ensures SplitAt(edges, roots, i + 1, j)
    ensures
      var node, continuations := TreeNodes(roots, edges, counts, start)[i], edges[from..j];
      && node.hash == roots[i].key.first && node.gameCount == roots[i].value && node.complete == (roots[i].key.first == start)
      && |node.continuations| == |continuations|
      && forall k :: 0 <= k < |continuations| ==> node.continuations[k] == ContinuationOf(continuations[k], counts)
  {
    hide RunSorted, RootsOk, EdgesRooted, SplitAt, ContinuationOf;
    SplitAdvances(edges, roots, i, from, j);
    EdgesRange(edges, roots[i].key.first, from, j, |edges|);
    assert edges[..|edges|] == edges;
  }

  lemma PartAttachable(edges: seq<Keyed<Agg>>, from: nat, to: nat, counts: seq<Keyed<nat>>)
    requires from <= to <= |edges|
    ensures AllAttachable(edges[from..to], counts) <==> forall k :: from <= k < to ==> Attachable(edges[k], counts)
  {
    hide Attachable;
    if AllAttachable(edges[from..to], counts) {
      forall k | from <= k < to
        ensures Attachable(edges[k], counts)
      {
        assert edges[from..to][k - from] == edges[k];
      }
    }
  }

  lemma AllConsumed(edges: seq<Keyed<Agg>>, roots: seq<Keyed<nat>>, j: nat)
    requires SplitAt(edges, roots, |roots|, j)
    ensures j == |edges|
  {
  }

  lemma NothingWritten(header: seq<byte>, nodes: seq<Node>)
    ensures header == header + EncodeNodes(nodes[..0])
  {
  }

  lemma NoContinuations(node: Node)
    ensures EncodeContinuations(node.continuations[..0]) == []
  {
  }

  lemma ContinuationWritten(node: Node, k: nat)
    requires k < |node.continuations|
    ensures EncodeContinuations(node.continuations[..k + 1])
         == EncodeContinuations(node.continuations[..k]) + EncodeContinuation(node.continuations[k])
  {
    assert node.continuations[..k + 1][..k] == node.continuations[..k];
  }

  lemma AttachedFrequency(counts: seq<Keyed<nat>>, hash: nat)
    requires CountOf(counts, hash).Some?
    ensures FrequencyOf(counts, hash) == CountOf(counts, hash).value
  {
  }

  lemma NodeWritten(nodes: seq<Node>, i: nat)
    requires i < |nodes|
    ensures EncodeNodes(nodes[..i + 1]) == EncodeNodes(nodes[..i]) + EncodeNode(nodes[i])
  {
    assert nodes[..i + 1][..i] == nodes[..i];
  }

  /** materialize_child_counts: takes an external stream only if it is strictly ascending and positive. */
  method MaterializeCounts(stream: seq<(nat, nat)>) returns (r: Result<seq<Keyed<nat>>>)
    ensures r.Ok? <==> StreamOk(stream)
    ensures r.Ok? ==> r.value == CountsOf(stream) && CountsOk(r.value)
    ensures r.Err? ==> r == Err(IoFailure)
  {
    var counts: seq<Keyed<nat>> := [];
    for k := 0 to |stream|
      invariant counts == CountsOf(stream[..k]) && StreamOk(stream[..k])
    {
      if stream[k].1 == 0 || (k > 0 && stream[k].0 <= stream[k - 1].0) {
        assert !StreamOk(stream);
        return Err(IoFailure);
      }
      StreamGrows(stream, k);
      counts := counts + [Keyed(HashKey(stream[k].0), stream[k].1)];
    }
    assert stream[..|stream|] == stream;
    StreamCounts(stream);
    return Ok(counts);
  }

  predicate StreamOk(stream: seq<(nat, nat)>) {
    && (forall i :: 0 <= i < |stream| ==> stream[i].1 > 0)
    && (forall i, j :: 0 <= i < j < |stream| ==> stream[i].0 < stream[j].0)
  }

  function CountsOf(stream: seq<(nat, nat)>): (counts: seq<Keyed<nat>>)
    ensures |counts| == |stream|
  {
    seq(|stream|, i requires 0 <= i < |stream| => Keyed(HashKey(stream[i].0), stream[i].1))
  }

  lemma StreamGrows(stream: seq<(nat, nat)>, k: nat)
    requires k < |stream| && StreamOk(stream[..k]) && stream[k].1 > 0 && (k > 0 ==> stream[k - 1].0 < stream[k].0)
    ensures StreamOk(stream[..k + 1])
  {
    forall i | 0 <= i < k
      ensures stream[i].0 < stream[k].0
    {
      assert i < k - 1 ==> stream[..k][i].0 < stream[..k][k - 1].0;
    }
    assert forall i :: 0 <= i < k ==> stream[..k + 1][i] == stream[..k][i];
  }

  lemma StreamCounts(stream: seq<(nat, nat)>)
    requires StreamOk(stream)
    ensures CountsOk(CountsOf(stream))
  {
  }
}
