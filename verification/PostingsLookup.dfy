/** Queries against an opened postings artifact: two-level binary search, decoding, and the join with game metadata. */
module PostingsLookup {
  import opened Words
  import opened PostingBlock
  import opened PostingsFile
  import opened PostingsReader
  import DirectoryBlock

  /** position_match: an occurrence joined with its game's metadata. */
  datatype Match = Match(id: nat, ply: nat, result: int, whiteElo: Option<int>, blackElo: Option<int>)

  datatype Summary = Summary(occurrences: nat, games: nat, minPly: nat, maxPly: nat)

  predicate KeysAscend(keys: seq<nat>) {
    forall i, j :: 0 <= i < j < |keys| ==> keys[i] < keys[j]
  }

  function Keys<T>(s: seq<T>, key: T -> nat): (keys: seq<nat>)
    ensures |keys| == |s|
  {
    seq(|s|, i requires 0 <= i < |s| => key(s[i]))
  }

  /** std::ranges::upper_bound over strictly ascending keys. */
  method UpperBound<T>(s: seq<T>, key: T -> nat, value: nat) returns (k: nat)
    requires KeysAscend(Keys(s, key))
    ensures k <= |s|
    ensures forall i :: 0 <= i < k ==> key(s[i]) <= value
    ensures forall i :: k <= i < |s| ==> value < key(s[i])
  {
    ghost var keys := Keys(s, key);
    var lo: nat, hi: nat := 0, |s|;
    while lo < hi
      invariant lo <= hi <= |s|
      invariant forall i :: 0 <= i < lo ==> keys[i] <= value
      invariant forall i :: hi <= i < |s| ==> value < keys[i]
    {
      var mid := (lo + hi) / 2;
      assert keys[mid] == key(s[mid]);
      if key(s[mid]) <= value {
        lo := mid + 1;
      } else {
        hi := mid;
      }
    }
    forall i | 0 <= i < |s|
      ensures key(s[i]) == keys[i]
    {
    }
    return lo;
  }

  /** std::ranges::lower_bound over strictly ascending keys. */
  method LowerBound<T>(s: seq<T>, key: T -> nat, value: nat) returns (k: nat)
    requires KeysAscend(Keys(s, key))
    ensures k <= |s|
    ensures forall i :: 0 <= i < k ==> key(s[i]) < value
    ensures forall i :: k <= i < |s| ==> value <= key(s[i])
  {
    ghost var keys := Keys(s, key);
    var lo: nat, hi: nat := 0, |s|;
    while lo < hi
      invariant lo <= hi <= |s|
      invariant forall i :: 0 <= i < lo ==> keys[i] < value
      invariant forall i :: hi <= i < |s| ==> value <= keys[i]
    {
      var mid := (lo + hi) / 2;
      assert keys[mid] == key(s[mid]);
      if key(s[mid]) < value {
        lo := mid + 1;
      } else {
        hi := mid;
      }
    }
    forall i | 0 <= i < |s|
      ensures key(s[i]) == keys[i]
    {
    }
    return lo;
  }

  // Linear search, the reference for both searches.

  function Lookup(es: seq<Entry>, hash: nat): Option<Entry> {
    if es == [] then None else if es[0].hash == hash then Some(es[0]) else Lookup(es[1..], hash)
  }

  function MetadataOf(records: seq<MetadataRecord>, id: nat): Option<GameMetadata> {
    if records == [] then None else if records[0].id == id then Some(records[0].metadata) else MetadataOf(records[1..], id)
  }

  predicate DirectoryAscending(es: seq<Entry>) {
    forall i, j :: 0 <= i < j < |es| ==> es[i].hash < es[j].hash
  }

  lemma {:induction false} LookupFinds(es: seq<Entry>, hash: nat)
    ensures Lookup(es, hash).None? ==> forall i :: 0 <= i < |es| ==> es[i].hash != hash
    ensures Lookup(es, hash).Some? ==> Lookup(es, hash).value in es && Lookup(es, hash).value.hash == hash
    ensures DirectoryAscending(es) ==> forall i :: 0 <= i < |es| && es[i].hash == hash ==> Lookup(es, hash) == Some(es[i])
  {
    if es != [] {
      LookupFinds(es[1..], hash);
      forall i | 0 < i < |es|
        ensures es[i] == es[1..][i - 1]
      {
      }
    }
  }

  lemma {:induction false} MetadataFinds(records: seq<MetadataRecord>, id: nat)
    ensures MetadataOf(records, id).None? ==> forall i :: 0 <= i < |records| ==> records[i].id != id
    ensures MetadataOf(records, id).Some? ==> exists i :: 0 <= i < |records| && records[i] == MetadataRecord(id, MetadataOf(records, id).value)
    ensures (forall i, j :: 0 <= i < j < |records| ==> records[i].id < records[j].id)
            ==> forall i :: 0 <= i < |records| && records[i].id == id ==> MetadataOf(records, id) == Some(records[i].metadata)
  {
    if records != [] {
      MetadataFinds(records[1..], id);
      forall i | 0 < i < |records|
        ensures records[i] == records[1..][i - 1]
      {
      }
      if records[0].id != id && MetadataOf(records, id).Some? {
        var i :| 0 <= i < |records[1..]| && records[1..][i] == MetadataRecord(id, MetadataOf(records[1..], id).value);
        assert records[i + 1] == MetadataRecord(id, MetadataOf(records, id).value);
      } else if records[0].id == id {
        assert records[0] == MetadataRecord(id, MetadataOf(records, id).value);
      }
    }
  }

  // What acceptance says about the directory.

  lemma {:induction false} DirectoryAscends(es: seq<Entry>, base: nat)
    requires DirectoryOk(es, base)
    ensures DirectoryAscending(es)
    ensures forall i :: 0 <= i < |es| ==> base <= es[i].offset && es[i].offset + es[i].length <= PostingEnd(es, base)
    ensures base <= PostingEnd(es, base)
  {
    if es != [] {
      var n := |es| - 1;
      DirectoryAscends(es[..n], base);
      forall i | 0 <= i < n
        ensures es[i] == es[..n][i] && es[i].hash < es[n].hash
      {
        assert es[..n][i].hash <= es[..n][n - 1].hash;
      }
    }
  }

  lemma {:induction false} SparseAscends(sparse: seq<SparseEntry>, base: nat)
    requires SparseOk(sparse, base)
    ensures forall i, j :: 0 <= i < j < |sparse| ==> sparse[i].firstHash < sparse[j].firstHash
  {
    if sparse != [] {
      var n := |sparse| - 1;
      SparseAscends(sparse[..n], base);
      forall i | 0 <= i < n
        ensures sparse[i] == sparse[..n][i] && sparse[i].firstHash < sparse[n].firstHash
      {
        assert sparse[..n][i].firstHash <= sparse[..n][n - 1].firstHash;
      }
    }
  }

  /** The a-th entry of block i is the directory entry at that block's start plus a. */
  lemma ConcatAt<T>(blocks: seq<seq<T>>, i: nat, a: nat)
    requires i < |blocks| && a < |blocks[i]|
    ensures |Concat(blocks[..i])| + a < |Concat(blocks)|
    ensures Concat(blocks)[|Concat(blocks[..i])| + a] == blocks[i][a]
  {
    hide Concat;
    ConcatPrefix(blocks, i, a + 1);
    var prefix := Concat(blocks[..i]) + blocks[i][..a + 1];
    assert prefix[|Concat(blocks[..i])| + a] == blocks[i][a];
  }

  lemma ConcatStarts<T>(blocks: seq<seq<T>>, i: nat, j: nat)
    requires i < j <= |blocks|
    ensures |Concat(blocks[..i])| + |blocks[i]| <= |Concat(blocks[..j])|
  {
    hide Concat;
    ConcatPrefix(blocks[..j], i, |blocks[i]|);
    assert blocks[..j][..i] == blocks[..i] && blocks[..j][i] == blocks[i];
  }

  lemma {:induction false} ConcatMember<T>(blocks: seq<seq<T>>, k: nat) returns (i: nat, a: nat)
    requires k < |Concat(blocks)|
    ensures i < |blocks| && a < |blocks[i]| && Concat(blocks)[k] == blocks[i][a]
  {
    var n := |blocks| - 1;
    if k < |Concat(blocks[..n])| {
      i, a := ConcatMember(blocks[..n], k);
    } else {
      i, a := n, k - |Concat(blocks[..n])|;
    }
  }

  /** Searching the one block whose range can hold the hash is searching the whole directory. */
  lemma TwoLevelSearch(blocks: seq<seq<Entry>>, hash: nat, j: nat)
    requires DirectoryAscending(Concat(blocks)) && j <= |blocks|
    requires forall i :: 0 <= i < |blocks| ==> blocks[i] != []
    requires forall i :: 0 <= i < j ==> blocks[i][0].hash <= hash
    requires forall i :: j <= i < |blocks| ==> hash < blocks[i][0].hash
    ensures Lookup(Concat(blocks), hash) == if j == 0 then None else Lookup(blocks[j - 1], hash)
    ensures j > 0 ==> DirectoryAscending(blocks[j - 1])
  {
    hide Concat, Lookup;
    var es := Concat(blocks);
    LookupFinds(es, hash);
    if j > 0 {
      var block := blocks[j - 1];
      LookupFinds(block, hash);
      forall a, b | 0 <= a < b < |block|
        ensures block[a].hash < block[b].hash
      {
        ConcatAt(blocks, j - 1, a);
        ConcatAt(blocks, j - 1, b);
      }
      if Lookup(block, hash).Some? {
        var a: nat :| a < |block| && block[a] == Lookup(block, hash).value;
        ConcatAt(blocks, j - 1, a);
      }
    }
    if Lookup(es, hash).Some? {
      var k: nat :| k < |es| && es[k] == Lookup(es, hash).value;
      var i, a := ConcatMember(blocks, k);
      BlockStartsAscend(blocks, i, a, hash);
      if i + 1 < j {
        ConcatAt(blocks, i, a);
        ConcatAt(blocks, j - 1, 0);
        ConcatStarts(blocks, i, j - 1);
        assert false;
      }
    }
  }

  lemma BlockStartsAscend(blocks: seq<seq<Entry>>, i: nat, a: nat, hash: nat)
    requires DirectoryAscending(Concat(blocks)) && i < |blocks| && a < |blocks[i]|
    ensures blocks[i][0].hash <= blocks[i][a].hash
  {
    hide Concat;
    ConcatAt(blocks, i, 0);
    ConcatAt(blocks, i, a);
  }

  /** find_directory_block_entry: one sparse search, one block read, one search in the block. */
  method FindEntry(file: seq<byte>, index: Index, hash: nat) returns (r: Result<Option<Entry>>)
    requires Acceptable(file) && index == IndexOf(file)
    ensures r == Ok(Lookup(Directory(file, index), hash))
    ensures r.value.Some? ==> r.value.value in Directory(file, index)
  {
    hide DirectoryBlock.Decode, DirectoryOk, SparseOk, StoredHeader, StoredSparse, StoredMetadata, HeaderOk, MetadataOk;
    hide Lookup, Concat, BlockAt, KeysAscend;
    ghost var blocks := BlocksAt(file, index.sparse);
    var sparse := index.sparse;
    DirectoryAscends(Concat(blocks), HEADER_SIZE);
    LookupFinds(Concat(blocks), hash);
    SparseKeysAscend(file, index);
    var j := UpperBound(sparse, (e: SparseEntry) => e.firstHash, hash);
    BlocksStart(file, sparse);
    TwoLevelSearch(blocks, hash, j);
    if j == 0 {
      return Ok(None);
    }
    BlockIsRead(file, sparse, j - 1);
    var decoded := ReadBlock(file, sparse[j - 1]);
    var es := decoded.value;
    EntryKeysAscend(es);
    var k := LowerBound(es, (e: Entry) => e.hash, hash);
    LookupFinds(es, hash);
    if k == |es| || es[k].hash != hash {
      return Ok(None);
    }
    return Ok(Some(es[k]));
  }

  lemma SparseKeysAscend(file: seq<byte>, index: Index)
    requires Acceptable(file) && index == IndexOf(file)
    ensures KeysAscend(Keys(index.sparse, (e: SparseEntry) => e.firstHash))
  {
    hide SparseOk, BlocksOk, StoredSparse, StoredHeader, StoredMetadata, MetadataOk, Directory, DirectoryOk;
    SparseAscends(index.sparse, index.header.directoryOffset);
  }

  lemma EntryKeysAscend(es: seq<Entry>)
    requires DirectoryAscending(es)
    ensures KeysAscend(Keys(es, (e: Entry) => e.hash))
  {
  }

  lemma BlocksStart(file: seq<byte>, sparse: seq<SparseEntry>)
    requires BlocksOk(file, sparse)
    ensures forall i :: 0 <= i < |sparse| ==>
      var block := BlocksAt(file, sparse)[i]; block != [] && block[0].hash == sparse[i].firstHash
  {
  }

  lemma BlockIsRead(file: seq<byte>, sparse: seq<SparseEntry>, i: nat)
    requires BlocksOk(file, sparse) && i < |sparse|
    ensures BlockEnd(sparse[i]) <= |file|
    ensures DirectoryBlock.Decode(file[sparse[i].offset..BlockEnd(sparse[i])]) == Some(BlocksAt(file, sparse)[i])
  {
    hide DirectoryBlock.Decode;
    assert BlockAt(file, sparse[i]).Some?;
  }

  /** The metadata of a game, found by binary search in the table sorted by id. */
  method FindMetadata(records: seq<MetadataRecord>, id: nat) returns (r: Option<GameMetadata>)
    requires forall i, j :: 0 <= i < j < |records| ==> records[i].id < records[j].id
    ensures r == MetadataOf(records, id)
  {
    assert KeysAscend(Keys(records, (m: MetadataRecord) => m.id));
    var k := LowerBound(records, (m: MetadataRecord) => m.id, id);
    MetadataFinds(records, id);
    if k == |records| || records[k].id != id {
      return None;
    }
    return Some(records[k].metadata);
  }

  // The answers of an acceptable artifact, from its directory and its posting bytes.

  ghost function PostingData(file: seq<byte>, e: Entry): seq<byte>
    requires e.offset + e.length <= |file|
  {
    file[e.offset..e.offset + e.length]
  }

  /** Every posting range lies in the posting section. */
  lemma RangesInside(file: seq<byte>, index: Index)
    requires Acceptable(file) && index == IndexOf(file)
    ensures forall e :: e in Directory(file, index) ==>
      HEADER_SIZE <= e.offset && e.offset + e.length <= index.header.metadataOffset <= |file|
    ensures index.header.metadataOffset <= STREAM_MAX && |file| <= U64_MAX
  {
    hide DirectoryBlock.Decode, DirectoryOk, SparseOk, StoredHeader, StoredSparse, StoredMetadata, MetadataOk, BlocksOk, Concat;
    DirectoryAscends(Directory(file, index), HEADER_SIZE);
  }

  /** The game groups stored for a hash: none, unreadable, or the decoded block. */
  ghost function Posting(file: seq<byte>, hash: nat): Result<seq<GameGroup>>
    requires Acceptable(file)
  {
    var es := Directory(file, IndexOf(file));
    LookupFinds(es, hash);
    RangesInside(file, IndexOf(file));
    match Lookup(es, hash)
    case None => Ok([])
    case Some(e) => (match Decode(PostingData(file, e), e) case None => Err(SchemaMismatch) case Some(gs) => Ok(gs))
  }

  function Join(s: seq<Occurrence>, records: seq<MetadataRecord>): Result<seq<Match>> {
    if s == [] then Ok([])
    else
      var front, last := Join(s[..|s| - 1], records), s[|s| - 1];
      match MetadataOf(records, last.id)
      case None => Err(SchemaMismatch)
      case Some(m) =>
        match front
        case Err(e) => Err(e)
        case Ok(matches) => Ok(matches + [Match(last.id, last.ply, m.result, m.whiteElo, m.blackElo)])
  }

  ghost function OccurrencesAnswer(file: seq<byte>, hash: nat, limit: nat, skip: nat): Result<seq<Match>>
    requires Acceptable(file)
  {
    match Posting(file, hash)
    case Err(e) => Err(e)
    case Ok(gs) => Join(Page(Occurrences(gs), limit, skip), IndexOf(file).metadata)
  }

  ghost function FirstsAnswer(file: seq<byte>, hash: nat, requested: seq<nat>): Result<seq<Match>>
    requires Acceptable(file)
  {
    match Posting(file, hash)
    case Err(e) => if requested == [] then Ok([]) else Err(e)
    case Ok(gs) => Join(FirstOccurrences(gs, requested), IndexOf(file).metadata)
  }

  ghost predicate AllKnown(ids: seq<nat>, records: seq<MetadataRecord>) {
    forall i :: 0 <= i < |ids| ==> MetadataOf(records, ids[i]).Some?
  }

  ghost function GameIdsAnswer(file: seq<byte>, hash: nat): Result<seq<nat>>
    requires Acceptable(file)
  {
    match Posting(file, hash)
    case Err(e) => Err(e)
    case Ok(gs) => if AllKnown(GameIds(gs), IndexOf(file).metadata) then Ok(GameIds(gs)) else Err(SchemaMismatch)
  }

  lemma {:induction false} JoinPrefix(s: seq<Occurrence>, k: nat, records: seq<MetadataRecord>)
    requires k <= |s| && Join(s[..k], records).Err?
    ensures Join(s, records) == Err(SchemaMismatch)
    decreases |s|
  {
    if k < |s| {
      assert s[..|s| - 1][..k] == s[..k];
      JoinPrefix(s[..|s| - 1], k, records);
    } else {
      assert s[..k] == s;
      JoinFails(s, records);
    }
  }

  lemma {:induction false} JoinFails(s: seq<Occurrence>, records: seq<MetadataRecord>)
    ensures Join(s, records).Err? ==> Join(s, records) == Err(SchemaMismatch)
  {
    if s != [] {
      JoinFails(s[..|s| - 1], records);
    }
  }

  /** Looks up the metadata of each decoded occurrence. */
  method JoinMetadata(s: seq<Occurrence>, records: seq<MetadataRecord>) returns (r: Result<seq<Match>>)
    requires forall i, j :: 0 <= i < j < |records| ==> records[i].id < records[j].id
    ensures r == Join(s, records)
  {
    var matches: seq<Match> := [];
    for k := 0 to |s|
      invariant Join(s[..k], records) == Ok(matches)
    {
      assert s[..k + 1][..k] == s[..k];
      var m := FindMetadata(records, s[k].id);
      if m.None? {
        JoinPrefix(s, k + 1, records);
        return Err(SchemaMismatch);
      }
      matches := matches + [Match(s[k].id, s[k].ply, m.value.result, m.value.whiteElo, m.value.blackElo)];
    }
    assert s[..|s|] == s;
    return Ok(matches);
  }

  lemma {:induction false} IdsAscend(records: seq<MetadataRecord>, i: nat, j: nat)
    requires i < j < |records| && forall k :: 0 <= k < |records| - 1 ==> records[k].id < records[k + 1].id
    ensures records[i].id < records[j].id
  {
    if i + 1 < j {
      IdsAscend(records, i, j - 1);
    }
  }

  lemma MetadataAscends(file: seq<byte>, index: Index)
    requires Acceptable(file) && index == IndexOf(file)
    ensures forall i, j :: 0 <= i < j < |index.metadata| ==> index.metadata[i].id < index.metadata[j].id
  {
    hide StoredMetadataRecord, SparseOk, BlocksOk, DirectoryOk, Directory;
    forall i, j | 0 <= i < j < |index.metadata|
      ensures index.metadata[i].id < index.metadata[j].id
    {
      IdsAscend(index.metadata, i, j);
    }
  }

  lemma NothingStored(limit: nat, skip: nat, requested: seq<nat>, records: seq<MetadataRecord>)
    ensures Page(Occurrences([]), limit, skip) == [] && FirstOccurrences([], requested) == []
    ensures Join([], records) == Ok([]) && GameIds([]) == []
  {
  }

  lemma {:induction false} NoFirstsRequested(gs: seq<GameGroup>)
    ensures FirstOccurrences(gs, []) == []
  {
    if gs != [] {
      NoFirstsRequested(gs[..|gs| - 1]);
    }
  }

  /** What a reader object does once its directory entry is found: read the posting range. */
  method ReadPosting(file: seq<byte>, index: Index, e: Entry) returns (data: seq<byte>)
    requires Acceptable(file) && index == IndexOf(file) && e in Directory(file, index)
    ensures e.offset + e.length <= |file| && data == PostingData(file, e) && |data| <= U64_MAX
  {
    hide Acceptable, Directory, IndexOf;
    RangesInside(file, index);
    data := file[e.offset..e.offset + e.length];
  }

  method OccurrencesOf(file: seq<byte>, index: Index, hash: nat, limit: nat, skip: nat) returns (r: Result<seq<Match>>)
    requires Acceptable(file) && index == IndexOf(file)
    ensures r == OccurrencesAnswer(file, hash, limit, skip)
  {
    hide Acceptable, Directory, IndexOf, Decode, Lookup, Occurrences, Join, Page, PostingData;
    var found := FindEntry(file, index, hash);
    NothingStored(limit, skip, [], index.metadata);
    if found.value.None? {
      return Ok([]);
    }
    var e := found.value.value;
    var data := ReadPosting(file, index, e);
    var decoded := DecodeWindow(data, e, limit, skip);
    if decoded.Err? {
      return Err(decoded.error);
    }
    MetadataAscends(file, index);
    r := JoinMetadata(decoded.value, index.metadata);
  }

  method FirstOccurrencesOf(file: seq<byte>, index: Index, hash: nat, requested: seq<nat>) returns (r: Result<seq<Match>>)
    requires Acceptable(file) && index == IndexOf(file)
    ensures r == FirstsAnswer(file, hash, requested)
  {
    hide Acceptable, Directory, IndexOf, Decode, Lookup, FirstOccurrences, Join, PostingData;
    NothingStored(0, 0, requested, index.metadata);
    if requested == [] {
      if Posting(file, hash).Ok? {
        NoFirstsRequested(Posting(file, hash).value);
      }
      return Ok([]);
    }
    var found := FindEntry(file, index, hash);
    if found.value.None? {
      return Ok([]);
    }
    var e := found.value.value;
    var data := ReadPosting(file, index, e);
    var decoded := DecodeFirstOccurrences(data, e, requested);
    if decoded.Err? {
      return Err(decoded.error);
    }
    MetadataAscends(file, index);
    r := JoinMetadata(decoded.value, index.metadata);
  }

  method DistinctGameIds(file: seq<byte>, index: Index, hash: nat) returns (r: Result<seq<nat>>)
    requires Acceptable(file) && index == IndexOf(file)
    ensures r == GameIdsAnswer(file, hash)
  {
    hide Acceptable, Directory, IndexOf, Decode, Lookup, GameIds, PostingData;
    var found := FindEntry(file, index, hash);
    NothingStored(0, 0, [], index.metadata);
    if found.value.None? {
      return Ok([]);
    }
    var e := found.value.value;
    var data := ReadPosting(file, index, e);
    var decoded := DecodeGameIds(data, e);
    if decoded.Err? {
      return Err(decoded.error);
    }
    MetadataAscends(file, index);
    var ids := decoded.value;
    for k := 0 to |ids|
      invariant forall i :: 0 <= i < k ==> MetadataOf(index.metadata, ids[i]).Some?
    {
      var m := FindMetadata(index.metadata, ids[k]);
      if m.None? {
        return Err(SchemaMismatch);
      }
    }
    return Ok(ids);
  }

  /** The page of distinct ids, cut from the whole decoded list. */
  method DistinctGameIdsPage(file: seq<byte>, index: Index, hash: nat, limit: nat, skip: nat) returns (r: Result<seq<nat>>)
    requires Acceptable(file) && index == IndexOf(file)
    ensures r == match GameIdsAnswer(file, hash) case Err(e) => Err(e) case Ok(ids) => Ok(Page(ids, limit, skip))
  {
    hide Acceptable, IndexOf, GameIdsAnswer;
    var all := DistinctGameIds(file, index, hash);
    if all.Err? {
      return all;
    }
    var ids := all.value;
    if skip >= |ids| {
      assert Page(ids, limit, skip) == [];
      return Ok([]);
    }
    var remaining := |ids| - skip;
    var end := if limit == 0 then |ids| else skip + Min(limit, remaining);
    assert ids[skip..end] == Page(ids, limit, skip);
    return Ok(ids[skip..end]);
  }

  function SummaryOf(e: Entry): Summary {
    Summary(e.occurrences, e.games, e.minPly, e.maxPly)
  }

  function SummaryPairs(es: seq<Entry>): seq<(nat, Summary)> {
    if es == [] then [] else SummaryPairs(es[..|es| - 1]) + [(es[|es| - 1].hash, SummaryOf(es[|es| - 1]))]
  }

  method SummaryFor(file: seq<byte>, index: Index, hash: nat) returns (r: Result<Option<Summary>>)
    requires Acceptable(file) && index == IndexOf(file)
    ensures r == Ok(match Lookup(Directory(file, index), hash) case None => None case Some(e) => Some(SummaryOf(e)))
  {
    hide Acceptable, Directory, IndexOf, Lookup;
    var found := FindEntry(file, index, hash);
    return Ok(if found.value.None? then None else Some(SummaryOf(found.value.value)));
  }

  /** for_each_summary: block by block, every entry in directory order. */
  method Summaries(file: seq<byte>, index: Index) returns (r: Result<seq<(nat, Summary)>>)
    requires Acceptable(file) && index == IndexOf(file)
    ensures r == Ok(SummaryPairs(Directory(file, index)))
  {
    hide DirectoryBlock.Decode, DirectoryOk, SparseOk, StoredHeader, StoredSparse, StoredMetadata, HeaderOk, MetadataOk;
    hide Concat, BlockAt, SummaryPairs;
    ghost var blocks := BlocksAt(file, index.sparse);
    var visited: seq<(nat, Summary)> := [];
    NothingVisited();
    for i := 0 to |index.sparse|
      invariant visited == SummaryPairs(Concat(blocks[..i]))
    {
      BlockIsRead(file, index.sparse, i);
      var decoded := ReadBlock(file, index.sparse[i]);
      var es := decoded.value;
      ghost var before := Concat(blocks[..i]);
      assert before + es[..0] == before;
      for k := 0 to |es|
        invariant visited == SummaryPairs(before + es[..k])
      {
        VisitOne(before + es[..k], es[k]);
        assert before + es[..k] + [es[k]] == before + es[..k + 1];
        visited := visited + [(es[k].hash, SummaryOf(es[k]))];
      }
      assert es[..|es|] == es && blocks[..i] + [es] == blocks[..i + 1];
      ConcatAppends(blocks[..i], es);
    }
    assert blocks[..|blocks|] == blocks;
    return Ok(visited);
  }

  lemma NothingVisited()
    ensures SummaryPairs(Concat([])) == []
  {
  }

  lemma VisitOne(es: seq<Entry>, e: Entry)
    ensures SummaryPairs(es + [e]) == SummaryPairs(es) + [(e.hash, SummaryOf(e))]
  {
    assert (es + [e])[..|es|] == es;
  }
}
