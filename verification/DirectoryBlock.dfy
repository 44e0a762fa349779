/** A compressed directory block: 40-bit hash-delta lows, sparse high parts, derived posting offsets. */
module DirectoryBlock {
  import opened Words
  import opened Bitmaps
  import Uleb128
  import opened PostingBlock

  const MAX_ENTRIES: nat := 256
  const HEADER_SIZE: nat := 18
  const LOW_BYTES: nat := 5
  const LOW_RANGE: nat := 0x100_0000_0000
  const MAX_ENTRY_SIZE: nat := 60
  const MAX_BLOCK_SIZE: nat := HEADER_SIZE + 2 * 32 + (MAX_ENTRIES - 1) * LOW_BYTES + MAX_ENTRIES * MAX_ENTRY_SIZE

  /** Everything the writer keeps of an entry; the occurrence count alone may outgrow the reader's 32 bits. */
  predicate WritableEntry(e: Entry) {
    && e.hash <= U64_MAX && e.offset <= U64_MAX
    && 0 < e.length <= U64_MAX
    && 0 < e.games <= e.occurrences <= e.length
    && e.games <= U32_MAX
    && e.minPly <= e.maxPly <= U16_MAX
  }

  /** One entry's fields are consistent and fit their widths. */
  predicate ValidEntry(e: Entry) {
    WritableEntry(e) && e.occurrences <= U32_MAX
  }

  /** Strictly ascending hashes and contiguous posting ranges. */
  predicate ValidEntries(es: seq<Entry>) {
    && 0 < |es| <= MAX_ENTRIES
    && (forall e <- es :: ValidEntry(e))
    && (forall i :: 0 <= i < |es| - 1 ==> es[i].hash < es[i + 1].hash && es[i + 1].offset == es[i].offset + es[i].length)
  }

  function HashDeltas(es: seq<Entry>): (deltas: seq<nat>)
    ensures |deltas| == if es == [] then 0 else |es| - 1
  {
    if |es| <= 1 then [] else [Delta(es[1].hash, es[0].hash)] + HashDeltas(es[1..])
  }

  function HashBits(deltas: seq<nat>): (bits: seq<bool>)
    ensures |bits| == |deltas|
  {
    seq(|deltas|, i requires 0 <= i < |deltas| => deltas[i] / LOW_RANGE != 0)
  }

  function CountBits(es: seq<Entry>): (bits: seq<bool>)
    ensures |bits| == |es|
  {
    seq(|es|, i requires 0 <= i < |es| => es[i].occurrences != es[i].games)
  }

  function EncodeLows(deltas: seq<nat>): (s: seq<byte>)
    ensures |s| == LOW_BYTES * |deltas|
  {
    if deltas == [] then [] else LittleEndian(deltas[0], LOW_BYTES) + EncodeLows(deltas[1..])
  }

  function EncodeHighs(deltas: seq<nat>): seq<byte> {
    if deltas == [] then []
    else (if deltas[0] / LOW_RANGE != 0 then Uleb128.Encode(deltas[0] / LOW_RANGE) else []) + EncodeHighs(deltas[1..])
  }

  function EncodeFields(e: Entry): seq<byte> {
    Uleb128.Encode(e.length) + Uleb128.Encode(e.games)
    + (if e.occurrences != e.games then Uleb128.Encode(e.occurrences) else [])
    + Uleb128.Encode(e.minPly) + Uleb128.Encode(e.maxPly)
  }

  function EncodeEntries(es: seq<Entry>): seq<byte> {
    if es == [] then [] else EncodeFields(es[0]) + EncodeEntries(es[1..])
  }

  function EncodeHeader(first: Entry, count: nat): (s: seq<byte>)
    ensures |s| == HEADER_SIZE
  {
    LittleEndian(first.hash, 8) + LittleEndian(first.offset, 8) + LittleEndian(count, 2)
  }

  /** The bytes flush_directory_block writes, in persisted field order. */
  function Encode(es: seq<Entry>): seq<byte> {
    if es == [] then []
    else
      var deltas := HashDeltas(es);
      EncodeHeader(es[0], |es|) + Bitmap(HashBits(deltas)) + Bitmap(CountBits(es))
      + EncodeLows(deltas) + EncodeHighs(deltas) + EncodeEntries(es)
  }

  // Reference parser.

  ghost function ParseHighs(data: seq<byte>, offset: nat, lows: seq<nat>, bits: seq<bool>)
    : (r: Option<(seq<nat>, nat)>)
    requires |lows| == |bits|
    ensures r.Some? ==> |r.value.0| == |lows|
    decreases |lows|
  {
    if lows == [] then Some(([], offset))
    else if !bits[0] then Prepend([lows[0]], ParseHighs(data, offset, lows[1..], bits[1..]))
    else match Uleb128.At(data, offset)
      case None => None
      case Some((high, next)) =>
        if high == 0 || high > U64_MAX / LOW_RANGE then None
        else Prepend([lows[0] + high * LOW_RANGE], ParseHighs(data, next, lows[1..], bits[1..]))
  }

  function Prepend<T>(s: seq<T>, r: Option<(seq<T>, nat)>): Option<(seq<T>, nat)> {
    if r.None? then None else Some((s + r.value.0, r.value.1))
  }

  /** One entry's fields; its hash and posting offset come from the deltas before it. */
  ghost function ParseFields(data: seq<byte>, offset: nat, hash: nat, postingOffset: nat, countDiffers: bool): Option<(Entry, nat)> {
    match Uleb128.At(data, offset)
    case None => None
    case Some((length, afterLength)) =>
      if length == 0 then None
      else match Uleb128.At(data, afterLength)
        case None => None
        case Some((games, afterGames)) =>
          if games == 0 then None
          else if countDiffers then
            match Uleb128.At(data, afterGames)
            case None => None
            case Some((occurrences, next)) =>
              if occurrences <= games then None else ParsePlyRange(data, next, Entry(hash, postingOffset, length, occurrences, games, 0, 0))
          else ParsePlyRange(data, afterGames, Entry(hash, postingOffset, length, games, games, 0, 0))
  }

  ghost function ParsePlyRange(data: seq<byte>, offset: nat, e: Entry): Option<(Entry, nat)> {
    if e.occurrences > e.length || e.occurrences > U32_MAX || e.games > U32_MAX then None
    else match Uleb128.At(data, offset)
      case None => None
      case Some((minPly, afterMin)) =>
        match Uleb128.At(data, afterMin)
        case None => None
        case Some((maxPly, next)) =>
          if minPly > maxPly || maxPly > U16_MAX then None else Some((e.(minPly := minPly, maxPly := maxPly), next))
  }

  ghost function ParseEntries(data: seq<byte>, offset: nat, hash: nat, postingOffset: nat, bits: seq<bool>, deltas: seq<nat>)
    : Option<(seq<Entry>, nat)>
    requires |bits| == |deltas| + 1
    decreases |bits|, 0
  {
    match ParseFields(data, offset, hash, postingOffset, bits[0])
    case None => None
    case Some((e, next)) => Prepend([e], ParseTail(data, next, e, bits[1..], deltas))
  }

  /** The entries after `previous`: each hash and posting offset is derived from its predecessor. */
  ghost function ParseTail(data: seq<byte>, offset: nat, previous: Entry, bits: seq<bool>, deltas: seq<nat>): Option<(seq<Entry>, nat)>
    requires |bits| == |deltas|
    decreases |bits|, 1
  {
    if deltas == [] then Some(([], offset))
    else if deltas[0] == 0 || previous.hash + deltas[0] > U64_MAX || previous.offset + previous.length > U64_MAX then None
    else ParseEntries(data, offset, previous.hash + deltas[0], previous.offset + previous.length, bits, deltas[1..])
  }

  function LowsAt(data: seq<byte>, offset: nat, n: nat): (lows: seq<nat>)
    requires offset + LOW_BYTES * n <= |data|
    ensures |lows| == n
    decreases n
  {
    if n == 0 then [] else [FixedAt(data, offset, LOW_BYTES)] + LowsAt(data, offset + LOW_BYTES, n - 1)
  }

  /** What is left of a block after its header. */
  datatype Layout = Layout(hash: nat, offset: nat, count: nat, hashBitmap: seq<byte>, countBitmap: seq<byte>, lowsAt: nat, highsAt: nat)

  function LayoutOf(data: seq<byte>): Option<Layout> {
    if |data| < HEADER_SIZE then None
    else
      var count := FixedAt(data, 16, 2);
      if !(0 < count <= MAX_ENTRIES) then None
      else
        var afterHash := HEADER_SIZE + Bytes(count - 1);
        var lowsAt := afterHash + Bytes(count);
        var highsAt := lowsAt + LOW_BYTES * (count - 1);
        if highsAt > |data| then None
        else
          var hashBitmap, countBitmap := data[HEADER_SIZE..afterHash], data[afterHash..lowsAt];
          if PaddingIsZero(hashBitmap, count - 1) && PaddingIsZero(countBitmap, count) then
            Some(Layout(FixedAt(data, 0, 8), FixedAt(data, 8, 8), count, hashBitmap, countBitmap, lowsAt, highsAt))
          else None
  }

  ghost function Decode(data: seq<byte>): Option<seq<Entry>> {
    match LayoutOf(data)
    case None => None
    case Some(layout) =>
      match ParseHighs(data, layout.highsAt, LowsAt(data, layout.lowsAt, layout.count - 1), Bits(layout.hashBitmap, layout.count - 1))
      case None => None
      case Some((deltas, next)) =>
        match ParseEntries(data, next, layout.hash, layout.offset, Bits(layout.countBitmap, layout.count), deltas)
        case None => None
        case Some((es, end)) => if end == |data| then Some(es) else None
  }

  // The parser inverts the encoder.

  function LowsOf(deltas: seq<nat>): (lows: seq<nat>)
    ensures |lows| == |deltas|
  {
    seq(|deltas|, i requires 0 <= i < |deltas| => deltas[i] % LOW_RANGE)
  }

  lemma {:induction false} LowsHold(data: seq<byte>, offset: nat, deltas: seq<nat>)
    requires offset + LOW_BYTES * |deltas| <= |data|
    ensures Holds(data, offset, EncodeLows(deltas)) <==> LowsAt(data, offset, |deltas|) == LowsOf(deltas)
    decreases |deltas|
  {
    if deltas == [] {
    } else {
      hide Holds, FixedAt, LittleEndian;
      LowsHold(data, offset + LOW_BYTES, deltas[1..]);
      HoldsConcat(data, offset, LittleEndian(deltas[0], LOW_BYTES), EncodeLows(deltas[1..]));
      WordCapacities();
      LittleEndianTruncates(deltas[0], LOW_BYTES);
      FixedIsStored(data, offset, LOW_BYTES, deltas[0] % LOW_RANGE);
      assert LowsOf(deltas) == [deltas[0] % LOW_RANGE] + LowsOf(deltas[1..]);
      var lows := LowsAt(data, offset, |deltas|);
      assert lows[0] == FixedAt(data, offset, LOW_BYTES) && lows[1..] == LowsAt(data, offset + LOW_BYTES, |deltas| - 1);
      assert LowsOf(deltas)[1..] == LowsOf(deltas[1..]);
    }
  }

  lemma DeltasGrow(delta: nat, rest: seq<nat>)
    ensures LowsOf([delta] + rest) == [delta % LOW_RANGE] + LowsOf(rest)
    ensures HashBits([delta] + rest) == [delta / LOW_RANGE != 0] + HashBits(rest)
    ensures EncodeHighs([delta] + rest)
         == (if delta / LOW_RANGE != 0 then Uleb128.Encode(delta / LOW_RANGE) else []) + EncodeHighs(rest)
    ensures EncodeHighs([]) == [] && LowsOf([]) == [] && HashBits([]) == []
  {
    hide Uleb128.Encode;
    assert ([delta] + rest)[1..] == rest;
  }

  lemma {:induction false} ParsedHighs(data: seq<byte>, offset: nat, lows: seq<nat>, bits: seq<bool>)
    requires |lows| == |bits| && offset <= |data|
    requires forall i :: 0 <= i < |lows| ==> lows[i] < LOW_RANGE
    ensures
      var r := ParseHighs(data, offset, lows, bits);
      r.Some? ==>
        && LowsOf(r.value.0) == lows && HashBits(r.value.0) == bits
        && (forall i :: 0 <= i < |r.value.0| ==> r.value.0[i] <= U64_MAX)
        && r.value.1 == offset + |EncodeHighs(r.value.0)| <= |data|
        && Holds(data, offset, EncodeHighs(r.value.0))
    decreases |lows|
  {
    hide Holds, Uleb128.At, LowsOf, HashBits, EncodeHighs;
    HoldsNothing(data, offset);
    DeltasGrow(0, []);
    var r := ParseHighs(data, offset, lows, bits);
    if lows != [] && r.Some? {
      assert lows == [lows[0]] + lows[1..] && bits == [bits[0]] + bits[1..];
      if bits[0] {
        var (high, next) := Uleb128.At(data, offset).value;
        var rest := ParseHighs(data, next, lows[1..], bits[1..]).value.0;
        ParsedHighs(data, next, lows[1..], bits[1..]);
        RemainderOfMultiple(LOW_RANGE, high, lows[0]);
        DeltasGrow(lows[0] + high * LOW_RANGE, rest);
        HoldsConcat(data, offset, Uleb128.Encode(high), EncodeHighs(rest));
      } else {
        var rest := ParseHighs(data, offset, lows[1..], bits[1..]).value.0;
        ParsedHighs(data, offset, lows[1..], bits[1..]);
        DeltasGrow(lows[0], rest);
        assert [] + EncodeHighs(rest) == EncodeHighs(rest);
      }
    }
  }

  lemma {:induction false} EncodedHighsParse(data: seq<byte>, offset: nat, deltas: seq<nat>)
    requires forall i :: 0 <= i < |deltas| ==> deltas[i] <= U64_MAX
    requires Holds(data, offset, EncodeHighs(deltas))
    ensures ParseHighs(data, offset, LowsOf(deltas), HashBits(deltas)) == Some((deltas, offset + |EncodeHighs(deltas)|))
    decreases |deltas|
  {
    hide Holds, Uleb128.At, LowsOf, HashBits, EncodeHighs;
    DeltasGrow(0, []);
    if deltas != [] {
      var rest := deltas[1..];
      assert [deltas[0]] + rest == deltas;
      DeltasGrow(deltas[0], rest);
      assert LowsOf(deltas)[1..] == LowsOf(rest) && HashBits(deltas)[1..] == HashBits(rest);
      var high := deltas[0] / LOW_RANGE;
      if high != 0 {
        HoldsConcat(data, offset, Uleb128.Encode(high), EncodeHighs(rest));
        Uleb128.StoredIsRead(data, offset, high);
        EncodedHighsParse(data, offset + |Uleb128.Encode(high)|, rest);
      } else {
        assert [] + EncodeHighs(rest) == EncodeHighs(rest);
        EncodedHighsParse(data, offset, rest);
      }
    }
  }

  /** An entry's fields lie at an offset exactly when its values lie there one after the other. */
  lemma FieldsHold(data: seq<byte>, offset: nat, e: Entry)
    ensures
      var afterLength := offset + |Uleb128.Encode(e.length)|;
      var afterGames := afterLength + |Uleb128.Encode(e.games)|;
      var afterCount := if e.occurrences != e.games then afterGames + |Uleb128.Encode(e.occurrences)| else afterGames;
      var afterMin := afterCount + |Uleb128.Encode(e.minPly)|;
      && (Holds(data, offset, EncodeFields(e)) <==>
          && Holds(data, offset, Uleb128.Encode(e.length))
          && Holds(data, afterLength, Uleb128.Encode(e.games))
          && (e.occurrences != e.games ==> Holds(data, afterGames, Uleb128.Encode(e.occurrences)))
          && Holds(data, afterCount, Uleb128.Encode(e.minPly))
          && Holds(data, afterMin, Uleb128.Encode(e.maxPly)))
      && offset + |EncodeFields(e)| == afterMin + |Uleb128.Encode(e.maxPly)|
  {
    hide Holds;
    hide Uleb128.Encode;
    var length, games := Uleb128.Encode(e.length), Uleb128.Encode(e.games);
    var count := if e.occurrences != e.games then Uleb128.Encode(e.occurrences) else [];
    HoldsConcat(data, offset, length, games);
    HoldsConcat(data, offset, length + games, count);
    HoldsConcat(data, offset, length + games + count, Uleb128.Encode(e.minPly));
    HoldsConcat(data, offset, length + games + count + Uleb128.Encode(e.minPly), Uleb128.Encode(e.maxPly));
    if e.occurrences == e.games {
      assert length + games + count == length + games;
    }
  }

  lemma ParsedFields(data: seq<byte>, offset: nat, hash: nat, postingOffset: nat, countDiffers: bool)
    requires offset <= |data| && hash <= U64_MAX && postingOffset <= U64_MAX
    ensures
      var r := ParseFields(data, offset, hash, postingOffset, countDiffers);
      r.Some? ==>
        && ValidEntry(r.value.0) && r.value.0.hash == hash && r.value.0.offset == postingOffset
        && countDiffers == (r.value.0.occurrences != r.value.0.games)
        && r.value.1 == offset + |EncodeFields(r.value.0)| <= |data|
        && Holds(data, offset, EncodeFields(r.value.0))
  {
    hide Holds;
    hide Uleb128.At;
    hide EncodeFields;
    var r := ParseFields(data, offset, hash, postingOffset, countDiffers);
    if r.Some? {
      FieldsHold(data, offset, r.value.0);
    }
  }

  lemma EncodedFieldsParse(data: seq<byte>, offset: nat, e: Entry)
    requires WritableEntry(e) && Holds(data, offset, EncodeFields(e))
    ensures ParseFields(data, offset, e.hash, e.offset, e.occurrences != e.games)
         == if e.occurrences <= U32_MAX then Some((e, offset + |EncodeFields(e)|)) else None
  {
    hide Holds;
    hide Uleb128.At;
    hide EncodeFields;
    FieldsHold(data, offset, e);
    var afterLength := offset + |Uleb128.Encode(e.length)|;
    var afterGames := afterLength + |Uleb128.Encode(e.games)|;
    Uleb128.StoredIsRead(data, offset, e.length);
    Uleb128.StoredIsRead(data, afterLength, e.games);
    var afterCount := afterGames;
    if e.occurrences != e.games {
      Uleb128.StoredIsRead(data, afterGames, e.occurrences);
      afterCount := afterGames + |Uleb128.Encode(e.occurrences)|;
    }
    Uleb128.StoredIsRead(data, afterCount, e.minPly);
    Uleb128.StoredIsRead(data, afterCount + |Uleb128.Encode(e.minPly)|, e.maxPly);
  }

  /** Writable entries with strictly ascending hashes and contiguous posting ranges; unlike a block, of any length. */
  predicate Linked(es: seq<Entry>) {
    && (forall i :: 0 <= i < |es| ==> WritableEntry(es[i]))
    && (forall i :: 0 <= i < |es| - 1 ==> es[i].hash < es[i + 1].hash && es[i + 1].offset == es[i].offset + es[i].length)
  }

  predicate CountsFit(es: seq<Entry>) {
    forall i :: 0 <= i < |es| ==> es[i].occurrences <= U32_MAX
  }

  predicate Chained(es: seq<Entry>) {
    Linked(es) && CountsFit(es)
  }

  lemma EntriesGrow(e: Entry, rest: seq<Entry>)
    ensures HashDeltas([e] + rest) == (if rest == [] then [] else [Delta(rest[0].hash, e.hash)]) + HashDeltas(rest)
    ensures CountBits([e] + rest) == [e.occurrences != e.games] + CountBits(rest)
    ensures EncodeEntries([e] + rest) == EncodeFields(e) + EncodeEntries(rest)
    ensures CountsFit([e] + rest) == (e.occurrences <= U32_MAX && CountsFit(rest))
  {
    hide EncodeFields;
    assert ([e] + rest)[1..] == rest;
    if CountsFit([e] + rest) {
      assert forall i :: 0 <= i < |rest| ==> rest[i] == ([e] + rest)[i + 1];
    }
  }

  lemma ChainGrows(e: Entry, rest: seq<Entry>)
    requires ValidEntry(e) && Chained(rest)
    requires rest != [] ==> e.hash < rest[0].hash && rest[0].offset == e.offset + e.length
    ensures Chained([e] + rest)
  {
    hide WritableEntry;
  }

  lemma {:induction false} ParsedEntries(data: seq<byte>, offset: nat, hash: nat, postingOffset: nat, bits: seq<bool>, deltas: seq<nat>)
    requires |bits| == |deltas| + 1 && offset <= |data| && hash <= U64_MAX && postingOffset <= U64_MAX
    ensures
      var r := ParseEntries(data, offset, hash, postingOffset, bits, deltas);
      r.Some? ==>
        var es := r.value.0;
        && |es| == |bits| && Chained(es) && es[0].hash == hash && es[0].offset == postingOffset
        && HashDeltas(es) == deltas && CountBits(es) == bits
        && r.value.1 == offset + |EncodeEntries(es)| <= |data|
        && Holds(data, offset, EncodeEntries(es))
    decreases |deltas|
  {
    hide Holds, ParseFields, EncodeFields, ValidEntry, HashDeltas, CountBits, EncodeEntries, Chained;
    ParsedFields(data, offset, hash, postingOffset, bits[0]);
    var r := ParseEntries(data, offset, hash, postingOffset, bits, deltas);
    if r.Some? {
      var es := r.value.0;
      var (e, next) := ParseFields(data, offset, hash, postingOffset, bits[0]).value;
      assert ParseTail(data, next, e, bits[1..], deltas).Some?;
      if deltas == [] {
        NothingEncoded(data, next);
        ChainGrows(e, []);
        EntriesGrow(e, []);
        HoldsConcat(data, offset, EncodeFields(e), EncodeEntries([]));
        assert [e] + [] == es && bits == [bits[0]];
      } else {
        ParsedEntries(data, next, hash + deltas[0], postingOffset + e.length, bits[1..], deltas[1..]);
        var (rest, end) := ParseTail(data, next, e, bits[1..], deltas).value;
        ChainGrows(e, rest);
        EntriesGrow(e, rest);
        HoldsConcat(data, offset, EncodeFields(e), EncodeEntries(rest));
        assert deltas == [deltas[0]] + deltas[1..] && bits == [bits[0]] + bits[1..];
      }
    }
  }

  lemma NothingEncoded(data: seq<byte>, offset: nat)
    requires offset <= |data|
    ensures Chained([]) && CountsFit([]) && EncodeEntries([]) == [] && HashDeltas([]) == [] && CountBits([]) == [] && Holds(data, offset, [])
  {
  }

  lemma {:induction false} EncodedEntriesParse(data: seq<byte>, offset: nat, es: seq<Entry>)
    requires es != [] && Linked(es)
    requires Holds(data, offset, EncodeEntries(es))
    ensures ParseEntries(data, offset, es[0].hash, es[0].offset, CountBits(es), HashDeltas(es))
         == if CountsFit(es) then Some((es, offset + |EncodeEntries(es)|)) else None
    decreases |es|
  {
    hide Holds, ParseFields, EncodeFields, HashDeltas, CountBits, EncodeEntries, CountsFit;
    var rest := es[1..];
    assert [es[0]] + rest == es;
    EntriesGrow(es[0], rest);
    NothingEncoded(data, 0);
    HoldsConcat(data, offset, EncodeFields(es[0]), EncodeEntries(rest));
    EncodedFieldsParse(data, offset, es[0]);
    assert CountBits(es)[1..] == CountBits(rest);
    if rest != [] {
      assert WritableEntry(es[1]);
      assert HashDeltas(es)[1..] == HashDeltas(rest);
      EncodedEntriesParse(data, offset + |EncodeFields(es[0])|, rest);
    }
  }

  /** A block lies at the start of the data exactly when its parts lie there one after the other. */
  lemma BlockHolds(data: seq<byte>, es: seq<Entry>)
    requires 0 < |es| <= MAX_ENTRIES
    ensures
      var deltas := HashDeltas(es);
      var countsAt := HEADER_SIZE + Bytes(|es| - 1);
      var lowsAt := countsAt + Bytes(|es|);
      var highsAt := lowsAt + LOW_BYTES * (|es| - 1);
      var entriesAt := highsAt + |EncodeHighs(deltas)|;
      && (Holds(data, 0, Encode(es)) <==>
          && Holds(data, 0, LittleEndian(es[0].hash, 8))
          && Holds(data, 8, LittleEndian(es[0].offset, 8))
          && Holds(data, 16, LittleEndian(|es|, 2))
          && Holds(data, HEADER_SIZE, Bitmap(HashBits(deltas)))
          && Holds(data, countsAt, Bitmap(CountBits(es)))
          && Holds(data, lowsAt, EncodeLows(deltas))
          && Holds(data, highsAt, EncodeHighs(deltas))
          && Holds(data, entriesAt, EncodeEntries(es)))
      && |Encode(es)| == entriesAt + |EncodeEntries(es)|
  {
    hide Holds, LittleEndian, Bitmap, HashBits, CountBits, EncodeLows, EncodeHighs, EncodeEntries, HashDeltas, Bytes;
    var deltas := HashDeltas(es);
    var hash, offset, count := LittleEndian(es[0].hash, 8), LittleEndian(es[0].offset, 8), LittleEndian(|es|, 2);
    HoldsConcat(data, 0, hash, offset);
    HoldsConcat(data, 0, hash + offset, count);
    var header := EncodeHeader(es[0], |es|);
    assert header == hash + offset + count;
    BodyHolds(data, header, Bitmap(HashBits(deltas)), Bitmap(CountBits(es)), EncodeLows(deltas), EncodeHighs(deltas), EncodeEntries(es));
  }

  lemma BodyHolds(data: seq<byte>, header: seq<byte>, hashBits: seq<byte>, countBits: seq<byte>, lows: seq<byte>, highs: seq<byte>,
                  entries: seq<byte>)
    ensures
      var countsAt := |header| + |hashBits|;
      var lowsAt := countsAt + |countBits|;
      var highsAt := lowsAt + |lows|;
      var entriesAt := highsAt + |highs|;
      && (Holds(data, 0, header + hashBits + countBits + lows + highs + entries) <==>
          && Holds(data, 0, header)
          && Holds(data, |header|, hashBits)
          && Holds(data, countsAt, countBits)
          && Holds(data, lowsAt, lows)
          && Holds(data, highsAt, highs)
          && Holds(data, entriesAt, entries))
      && |header + hashBits + countBits + lows + highs + entries| == entriesAt + |entries|
  {
    hide Holds;
    HoldsConcat(data, 0, header, hashBits);
    var p := header + hashBits;
    HoldsConcat(data, 0, p, countBits);
    var q := p + countBits;
    HoldsConcat(data, 0, q, lows);
    var r := q + lows;
    HoldsConcat(data, 0, r, highs);
    HoldsConcat(data, 0, r + highs, entries);
  }

  lemma {:induction false} DeltasFit(es: seq<Entry>)
    requires Linked(es)
    ensures forall i :: 0 <= i < |HashDeltas(es)| ==> HashDeltas(es)[i] <= U64_MAX
  {
    if |es| > 1 {
      DeltasFit(es[1..]);
      assert WritableEntry(es[1]);
    }
  }

  lemma ChainedIsValid(es: seq<Entry>)
    ensures 0 < |es| <= MAX_ENTRIES && Chained(es) <==> ValidEntries(es)
  {
    hide WritableEntry;
    if ValidEntries(es) {
      forall i | 0 <= i < |es|
        ensures ValidEntry(es[i])
      {
        assert es[i] in es;
      }
    }
  }

  lemma LowsAreLow(data: seq<byte>, offset: nat, n: nat)
    requires offset + LOW_BYTES * n <= |data|
    ensures forall i :: 0 <= i < n ==> LowsAt(data, offset, n)[i] < LOW_RANGE
    decreases n
  {
    if n > 0 {
      LowsAreLow(data, offset + LOW_BYTES, n - 1);
      LittleEndianInvertsUnsigned(data[offset..offset + LOW_BYTES]);
      WordCapacities();
    }
  }

  lemma DecodedIsEncoded(data: seq<byte>, es: seq<Entry>)
    requires Decode(data) == Some(es)
    ensures ValidEntries(es) && Encode(es) == data
  {
    hide Holds, Uleb128.At, ParseHighs, ParseEntries, EncodeHighs, EncodeLows, EncodeEntries, Chained;
    hide LowsAt, Bits, Bitmap, PaddingIsZero, HashBits, CountBits, ValidEntries, Encode, LittleEndian, FixedAt, HashDeltas, LowsOf;
    var layout := LayoutOf(data).value;
    var n := layout.count;
    var lows := LowsAt(data, layout.lowsAt, n - 1);
    var (deltas, entriesAt) := ParseHighs(data, layout.highsAt, lows, Bits(layout.hashBitmap, n - 1)).value;
    FixedIsBounded(data, 0, 8);
    FixedIsBounded(data, 8, 8);
    LowsAreLow(data, layout.lowsAt, n - 1);
    ParsedHighs(data, layout.highsAt, lows, Bits(layout.hashBitmap, n - 1));
    ParsedEntries(data, entriesAt, layout.hash, layout.offset, Bits(layout.countBitmap, n), deltas);
    BitmapOfBits(layout.hashBitmap, n - 1);
    BitmapOfBits(layout.countBitmap, n);
    SliceHolds(data, HEADER_SIZE, layout.hashBitmap);
    SliceHolds(data, HEADER_SIZE + Bytes(n - 1), layout.countBitmap);
    LowsHold(data, layout.lowsAt, deltas);
    FixedHolds(data, 0, 8);
    FixedHolds(data, 8, 8);
    FixedHolds(data, 16, 2);
    ChainedIsValid(es);
    BlockHolds(data, es);
    HoldsAll(data, Encode(es));
  }

  lemma FixedIsBounded(data: seq<byte>, offset: nat, width: nat)
    requires offset + width <= |data|
    ensures width == 8 ==> FixedAt(data, offset, width) <= U64_MAX
    ensures width == 4 ==> FixedAt(data, offset, width) <= U32_MAX
    ensures width == 2 ==> FixedAt(data, offset, width) <= U16_MAX
  {
    LittleEndianInvertsUnsigned(data[offset..offset + width]);
    WordCapacities();
  }

  lemma FixedHolds(data: seq<byte>, offset: nat, width: nat)
    requires offset + width <= |data|
    ensures Holds(data, offset, LittleEndian(FixedAt(data, offset, width), width))
  {
    LittleEndianInvertsUnsigned(data[offset..offset + width]);
  }

  lemma SliceHolds(data: seq<byte>, offset: nat, s: seq<byte>)
    requires offset + |s| <= |data| && s == data[offset..offset + |s|]
    ensures Holds(data, offset, s)
  {
  }

  lemma HoldsAll(data: seq<byte>, s: seq<byte>)
    requires |s| == |data|
    ensures Holds(data, 0, s) <==> data == s
  {
  }

  lemma HeldSlice(data: seq<byte>, offset: nat, s: seq<byte>)
    requires Holds(data, offset, s)
    ensures offset + |s| <= |data| && data[offset..offset + |s|] == s
  {
  }

  lemma EncodedIsDecoded(es: seq<Entry>)
    requires 0 < |es| <= MAX_ENTRIES && Linked(es)
    ensures Decode(Encode(es)) == if CountsFit(es) then Some(es) else None
  {
    hide Holds, Uleb128.At, ParseHighs, ParseEntries, EncodeHighs, EncodeLows, EncodeEntries, Linked, CountsFit;
    hide LowsAt, Bits, Bitmap, PaddingIsZero, HashBits, CountBits, ValidEntries, Encode, LittleEndian, FixedAt, HashDeltas, LowsOf;
    var data, n, deltas := Encode(es), |es|, HashDeltas(es);
    HoldsAll(data, data);
    BlockHolds(data, es);
    ChainHead(es);
    WordCapacities();
    FixedIsStored(data, 0, 8, es[0].hash);
    FixedIsStored(data, 8, 8, es[0].offset);
    FixedIsStored(data, 16, 2, n);
    HeldSlice(data, HEADER_SIZE, Bitmap(HashBits(deltas)));
    HeldSlice(data, HEADER_SIZE + Bytes(n - 1), Bitmap(CountBits(es)));
    BitsOfBitmap(HashBits(deltas));
    BitsOfBitmap(CountBits(es));
    var layout := LayoutOf(data).value;
    LowsHold(data, layout.lowsAt, deltas);
    DeltasFit(es);
    EncodedHighsParse(data, layout.highsAt, deltas);
    EncodedEntriesParse(data, layout.highsAt + |EncodeHighs(deltas)|, es);
  }

  lemma ChainHead(es: seq<Entry>)
    requires es != [] && Linked(es)
    ensures es[0].hash <= U64_MAX && es[0].offset <= U64_MAX
  {
    assert WritableEntry(es[0]);
  }

  /** decode_directory_block accepts exactly the encodings of valid entry lists, and returns the list. */
  lemma DecodeAcceptsExactlyBlocks(data: seq<byte>, es: seq<Entry>)
    ensures Decode(data) == Some(es) <==> ValidEntries(es) && Encode(es) == data
  {
    if Decode(data) == Some(es) {
      DecodedIsEncoded(data, es);
      ChainedIsValid(es);
    } else if ValidEntries(es) && Encode(es) == data {
      ChainedIsValid(es);
      EncodedIsDecoded(es);
    }
  }

  lemma {:induction false} HighsSize(deltas: seq<nat>)
    requires forall i :: 0 <= i < |deltas| ==> deltas[i] <= U64_MAX
    ensures |EncodeHighs(deltas)| <= 4 * |deltas|
  {
    if deltas != [] {
      HighsSize(deltas[1..]);
      Uleb128.EncodedSize(deltas[0] / LOW_RANGE);
    }
  }

  lemma {:induction false} EntriesSize(es: seq<Entry>)
    requires Linked(es)
    ensures |EncodeEntries(es)| <= 31 * |es|
  {
    hide Uleb128.Encode;
    if es != [] {
      EntriesSize(es[1..]);
      assert WritableEntry(es[0]);
      Uleb128.EncodedSize(es[0].length);
      Uleb128.EncodedSize(es[0].games);
      Uleb128.EncodedSize(es[0].occurrences);
      Uleb128.EncodedSize(es[0].minPly);
      Uleb128.EncodedSize(es[0].maxPly);
    }
  }

  /** A block never exceeds the reader's limit. */
  lemma BlockSize(es: seq<Entry>)
    requires 0 < |es| <= MAX_ENTRIES && Linked(es)
    ensures HEADER_SIZE < |Encode(es)| <= MAX_BLOCK_SIZE
  {
    hide EncodeHighs, EncodeEntries;
    DeltasFit(es);
    HighsSize(HashDeltas(es));
    EntriesSize(es);
    BlockHolds(Encode(es), es);
  }

  // The decoder.

  lemma PrependMore<T>(s: seq<T>, t: seq<T>, r: Option<(seq<T>, nat)>)
    ensures Prepend(s, Prepend(t, r)) == Prepend(s + t, r)
    ensures s == [] ==> Prepend(s, r) == r
  {
    if r.Some? {
      assert s + (t + r.value.0) == s + t + r.value.0;
      assert s == [] ==> s + r.value.0 == r.value.0;
    }
  }

  method ReadFields(data: seq<byte>, offset: nat, hash: nat, postingOffset: nat, countDiffers: bool) returns (r: Option<(Entry, nat)>)
    ensures r == ParseFields(data, offset, hash, postingOffset, countDiffers)
  {
    hide Uleb128.At;
    var length := Uleb128.Read(data, offset);
    if length.None? || length.value.0 == 0 {
      return None;
    }
    var games := Uleb128.Read(data, length.value.1);
    if games.None? || games.value.0 == 0 {
      return None;
    }
    var occurrences: nat, next: nat := games.value.0, games.value.1;
    if countDiffers {
      var count := Uleb128.Read(data, next);
      if count.None? || count.value.0 <= games.value.0 {
        return None;
      }
      occurrences, next := count.value.0, count.value.1;
    }
    if occurrences > length.value.0 || occurrences > U32_MAX || games.value.0 > U32_MAX {
      return None;
    }
    var minPly := Uleb128.Read(data, next);
    if minPly.None? {
      return None;
    }
    var maxPly := Uleb128.Read(data, minPly.value.1);
    if maxPly.None? || minPly.value.0 > maxPly.value.0 || maxPly.value.0 > U16_MAX {
      return None;
    }
    return Some((Entry(hash, postingOffset, length.value.0, occurrences, games.value.0, minPly.value.0, maxPly.value.0),
                 maxPly.value.1));
  }

  /** The header, the bitmaps and the lows' extent. */
  method ReadLayout(data: seq<byte>) returns (r: Option<Layout>)
    ensures r == LayoutOf(data)
  {
    var hash := ReadFixed(data, 0, 8);
    var offset := ReadFixed(data, 8, 8);
    var count := ReadFixed(data, 16, 2);
    if hash.None? || offset.None? || count.None? || count.value == 0 || count.value > MAX_ENTRIES {
      return None;
    }
    var afterHash := HEADER_SIZE + Bytes(count.value - 1);
    var lowsAt := afterHash + Bytes(count.value);
    if lowsAt > |data| {
      return None;
    }
    var hashBitmap, countBitmap := data[HEADER_SIZE..afterHash], data[afterHash..lowsAt];
    if !PaddingIsZero(hashBitmap, count.value - 1) || !PaddingIsZero(countBitmap, count.value) {
      return None;
    }
    var highsAt := lowsAt + LOW_BYTES * (count.value - 1);
    if highsAt > |data| {
      return None;
    }
    return Some(Layout(hash.value, offset.value, count.value, hashBitmap, countBitmap, lowsAt, highsAt));
  }

  method ReadLows(data: seq<byte>, offset: nat, n: nat) returns (lows: seq<nat>)
    requires offset + LOW_BYTES * n <= |data|
    ensures lows == LowsAt(data, offset, n)
  {
    hide FixedAt;
    lows := [];
    for index := 0 to n
      invariant |lows| == index
      invariant LowsAt(data, offset, n) == lows + LowsAt(data, offset + LOW_BYTES * index, n - index)
    {
      var low := ReadFixed(data, offset + LOW_BYTES * index, LOW_BYTES);
      lows := lows + [low.value];
    }
  }

  /** Adds the high parts to the lows whose exception bit is set. */
  method ReadHighs(data: seq<byte>, offset: nat, lows: seq<nat>, bits: seq<bool>) returns (r: Option<(seq<nat>, nat)>)
    requires |lows| == |bits|
    ensures r == ParseHighs(data, offset, lows, bits)
  {
    hide Uleb128.At;
    var deltas, next := lows, offset;
    PrependMore([], [], ParseHighs(data, offset, lows, bits));
    for index := 0 to |lows|
      invariant |deltas| == |lows| && deltas[index..] == lows[index..]
      invariant ParseHighs(data, offset, lows, bits) == Prepend(deltas[..index], ParseHighs(data, next, lows[index..], bits[index..]))
    {
      ghost var rest := ParseHighs(data, next, lows[index..], bits[index..]);
      assert lows[index..][1..] == lows[index + 1..] && bits[index..][1..] == bits[index + 1..];
      assert deltas[index] == lows[index..][0];
      if bits[index] {
        var high := Uleb128.Read(data, next);
        if high.None? || high.value.0 == 0 || high.value.0 > U64_MAX / LOW_RANGE {
          return None;
        }
        PrependMore(deltas[..index], [deltas[index] + high.value.0 * LOW_RANGE],
                    ParseHighs(data, high.value.1, lows[index + 1..], bits[index + 1..]));
        deltas := deltas[index := deltas[index] + high.value.0 * LOW_RANGE];
        next := high.value.1;
      } else {
        PrependMore(deltas[..index], [deltas[index]], ParseHighs(data, next, lows[index + 1..], bits[index + 1..]));
      }
      assert deltas[..index + 1] == deltas[..index] + [deltas[index]];
    }
    assert deltas[..|lows|] == deltas && deltas + [] == deltas;
    return Some((deltas, next));
  }

  /** decode_directory_block */
  method DecodeBlock(data: seq<byte>) returns (r: Result<seq<Entry>>)
    ensures r == match Decode(data) case None => Err(SchemaMismatch) case Some(es) => Ok(es)
  {
    hide LayoutOf, ParseHighs, ParseFields, LowsAt;
    var parsedLayout := ReadLayout(data);
    if parsedLayout.None? {
      return Err(SchemaMismatch);
    }
    LayoutFits(data);
    var layout := parsedLayout.value;
    var lows := ReadLows(data, layout.lowsAt, layout.count - 1);
    var parsedHighs := ReadHighs(data, layout.highsAt, lows, Bits(layout.hashBitmap, layout.count - 1));
    if parsedHighs.None? {
      return Err(SchemaMismatch);
    }
    var deltas, bits := parsedHighs.value.0, Bits(layout.countBitmap, layout.count);
    var entries: seq<Entry> := [];
    var offset: nat, hash: nat, postingOffset: nat, previousLength: nat := parsedHighs.value.1, layout.hash, layout.offset, 0;
    ghost var all := ParseEntries(data, offset, hash, postingOffset, bits, deltas);
    for index := 0 to layout.count
      invariant |entries| == index
      invariant index == 0 ==> all == ParseEntries(data, offset, hash, postingOffset, bits, deltas)
      invariant index > 0 ==>
        && hash == entries[index - 1].hash && postingOffset == entries[index - 1].offset
        && previousLength == entries[index - 1].length
        && all == Prepend(entries, ParseTail(data, offset, entries[index - 1], bits[index..], deltas[index - 1..]))
    {
      if index > 0 {
        var hashDelta := deltas[index - 1];
        assert deltas[index - 1..][0] == hashDelta && deltas[index - 1..][1..] == deltas[index..];
        if hashDelta == 0 || hash > U64_MAX - hashDelta || postingOffset > U64_MAX - previousLength {
          return Err(SchemaMismatch);
        }
        hash := hash + hashDelta;
        postingOffset := postingOffset + previousLength;
      }
      assert bits[index..][0] == bits[index] && bits[index..][1..] == bits[index + 1..];
      assert index == 0 ==> bits[index..] == bits && deltas[index..] == deltas;
      var fields := ReadFields(data, offset, hash, postingOffset, bits[index]);
      if fields.None? {
        return Err(SchemaMismatch);
      }
      ghost var tail := ParseTail(data, fields.value.1, fields.value.0, bits[index + 1..], deltas[index..]);
      assert ParseEntries(data, offset, hash, postingOffset, bits[index..], deltas[index..]) == Prepend([fields.value.0], tail);
      PrependMore(entries, [fields.value.0], tail);
      assert [] + [fields.value.0] == [fields.value.0];
      FieldsKeep(data, offset, hash, postingOffset, bits[index]);
      entries := entries + [fields.value.0];
      previousLength := fields.value.0.length;
      offset := fields.value.1;
    }
    assert entries + [] == entries;
    if offset != |data| {
      return Err(SchemaMismatch);
    }
    return Ok(entries);
  }

  lemma LayoutFits(data: seq<byte>)
    ensures
      var r := LayoutOf(data);
      r.Some? ==>
        && 0 < r.value.count <= MAX_ENTRIES
        && r.value.lowsAt + LOW_BYTES * (r.value.count - 1) == r.value.highsAt <= |data|
        && r.value.count - 1 <= 8 * |r.value.hashBitmap| && r.value.count <= 8 * |r.value.countBitmap|
  {
  }

  lemma FieldsKeep(data: seq<byte>, offset: nat, hash: nat, postingOffset: nat, countDiffers: bool)
    ensures
      var r := ParseFields(data, offset, hash, postingOffset, countDiffers);
      r.Some? ==> r.value.0.hash == hash && r.value.0.offset == postingOffset
  {
    hide Uleb128.At;
  }
}
