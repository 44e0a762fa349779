/** The prefix sidecar: the games that may have reached a position, bucketed by the leading bits of the position hash. */
module PrefixPostings {
  import opened Words
  import opened Bitmaps
  import opened SortedRuns

  const MAGIC: seq<byte> := [77, 79, 84, 73, 70, 80, 80, 49]  // MOTIFPP1
  const FORMAT_VERSION: nat := 1
  const MAX_PREFIX_BITS: nat := 24
  const HASH_BITS: nat := 64
  const HEADER_SIZE: nat := 32

  /** What append reads of a position row. */
  datatype Row = Row(hash: nat, game: nat)

  predicate RowFits(r: Row) {
    r.hash <= U64_MAX && r.game <= U32_MAX
  }

  predicate ValidBits(bits: nat) {
    0 < bits <= MAX_PREFIX_BITS
  }

  function Quotient(h: nat, d: nat): nat
    requires d > 0
  {
    h / d
  }

  /** The leading bits of the hash: a right shift. */
  function Prefix(bits: nat, hash: nat): nat
    requires bits <= HASH_BITS
  {
    Quotient(hash, Pow2(HASH_BITS - bits))
  }

  /** Where the q-th interval of that size begins. */
  function Bound(q: nat, size: nat): nat {
    q * size
  }

  /** Both hashes lie in one interval of the 2^bits that the leading bits cut the 64-bit hashes into. */
  ghost predicate SameInterval(bits: nat, a: nat, b: nat)
    requires bits <= HASH_BITS
  {
    var size := Pow2(HASH_BITS - bits);
    exists q: nat :: Bound(q, size) <= a < Bound(q + 1, size) && Bound(q, size) <= b < Bound(q + 1, size)
  }

  lemma IntervalIsQuotient(q: nat, hash: nat, size: nat)
    requires size > 0
    ensures Bound(q, size) <= hash < Bound(q + 1, size) <==> q == Quotient(hash, size)
  {
    var k := hash / size;
    assert hash == size * k + hash % size;
    if q < k {
      ProductGrows(size, q + 1, k);
    }
    if k < q {
      ProductGrows(size, k + 1, q);
    }
  }

  /** Hashes share the prefix exactly when they lie in one interval. */
  lemma PrefixIsInterval(bits: nat, a: nat, b: nat)
    requires bits <= HASH_BITS
    ensures Prefix(bits, a) == Prefix(bits, b) <==> SameInterval(bits, a, b)
  {
    hide Quotient, Bound, Pow2;
    var size := Pow2(HASH_BITS - bits);
    IntervalIsQuotient(Quotient(a, size), a, size);
    IntervalIsQuotient(Quotient(b, size), b, size);
    if q: nat :| Bound(q, size) <= a < Bound(q + 1, size) && Bound(q, size) <= b < Bound(q + 1, size) {
      IntervalIsQuotient(q, a, size);
      IntervalIsQuotient(q, b, size);
    }
  }

  /** The interval of one hash ends before the other. */
  ghost predicate IntervalBelow(bits: nat, a: nat, b: nat)
    requires bits <= HASH_BITS
  {
    var size := Pow2(HASH_BITS - bits);
    exists q: nat :: Bound(q, size) <= a < Bound(q + 1, size) <= b
  }

  lemma PrefixIsBelow(bits: nat, a: nat, b: nat)
    requires bits <= HASH_BITS
    ensures Prefix(bits, a) < Prefix(bits, b) <==> IntervalBelow(bits, a, b)
  {
    hide Pow2, Quotient, Bound;
    var size := Pow2(HASH_BITS - bits);
    IntervalIsQuotient(Quotient(a, size), a, size);
    EndsBefore(Quotient(a, size), b, size);
    if q: nat :| Bound(q, size) <= a < Bound(q + 1, size) <= b {
      IntervalIsQuotient(q, a, size);
    }
  }

  lemma EndsBefore(q: nat, b: nat, size: nat)
    requires size > 0
    ensures Bound(q + 1, size) <= b <==> q < Quotient(b, size)
  {
    var k := b / size;
    assert b == size * k + b % size;
    if q < k {
      ProductGrows(size, q + 1, k);
    } else {
      ProductGrows(size, k + 1, q + 1);
    }
  }

  function RecordOf(bits: nat, r: Row): Triple
    requires bits <= HASH_BITS
  {
    Triple(Prefix(bits, r.hash), r.game, 0)
  }

  function RowRecords(bits: nat, rows: seq<Row>): (s: seq<Triple>)
    requires bits <= HASH_BITS
    ensures |s| == |rows|
  {
    seq(|rows|, i requires 0 <= i < |rows| => RecordOf(bits, rows[i]))
  }

  predicate RecordOk(bits: nat, t: Triple) {
    t.first < Pow2(bits) && t.second <= U32_MAX && t.third == 0
  }

  // Prefixes are narrow.

  lemma {:induction false} PowOfSum(n: nat, m: nat)
    ensures Pow2(n + m) == Pow2(n) * Pow2(m)
  {
    if n > 0 {
      PowOfSum(n - 1, m);
      assert 2 * (Pow2(n - 1) * Pow2(m)) == (2 * Pow2(n - 1)) * Pow2(m);
    }
  }

  lemma {:induction false} PowOfByte(width: nat)
    ensures Pow2(8 * width) == Capacity(width)
  {
    if width > 0 {
      hide Pow2;
      PowOfByte(width - 1);
      PowOfSum(8, 8 * (width - 1));
      ByteIsEightBits();
    }
  }

  lemma ByteIsEightBits()
    ensures Pow2(8) == 256 && Pow2(0) == 1
  {
    assert Pow2(4) == 16;
  }

  lemma HashBound()
    ensures Pow2(HASH_BITS) == U64_MAX + 1 && Pow2(MAX_PREFIX_BITS) == 0x100_0000
  {
    hide Pow2;
    PowOfByte(8);
    PowOfByte(3);
    WordCapacities();
    assert Capacity(3) == 0x100_0000 by { assert Capacity(1) == 256; assert Capacity(2) == 256 * Capacity(1); }
  }

  lemma ProductGrows(d: nat, a: nat, b: nat)
    ensures a <= b ==> d * a <= d * b
  {
  }

  lemma QuotientIsBelow(h: nat, d: nat, q: nat)
    requires d > 0 && h < d * q
    ensures Quotient(h, d) < q
  {
    ProductGrows(d, q, h / d);
    assert h == d * (h / d) + h % d;
  }

  lemma PrefixFits(bits: nat, r: Row)
    requires ValidBits(bits) && RowFits(r)
    ensures RecordOk(bits, RecordOf(bits, r))
  {
    hide Pow2, Quotient;
    HashBound();
    PowOfSum(HASH_BITS - bits, bits);
    QuotientIsBelow(r.hash, Pow2(HASH_BITS - bits), Pow2(bits));
  }

  // The file of a strictly ascending list of records.

  function CountAt(s: seq<Triple>, b: nat): nat {
    if s == [] then 0 else CountAt(s[..|s| - 1], b) + if s[|s| - 1].first == b then 1 else 0
  }

  /** How many records lie in the buckets before the bound. */
  function CountBelow(s: seq<Triple>, b: nat): nat {
    if b == 0 then 0 else CountBelow(s, b - 1) + CountAt(s, b - 1)
  }

  function Offsets(s: seq<Triple>, buckets: nat): (offsets: seq<nat>)
    ensures |offsets| == buckets + 1
  {
    seq(buckets + 1, b requires 0 <= b => CountBelow(s, b))
  }

  function Ids(s: seq<Triple>): (ids: seq<nat>)
    ensures |ids| == |s|
  {
    seq(|s|, i requires 0 <= i < |s| => s[i].second)
  }

  function EncodeAll(values: seq<nat>, width: nat): (s: seq<byte>)
    ensures |s| == width * |values|
  {
    if values == [] then [] else EncodeAll(values[..|values| - 1], width) + LittleEndian(values[|values| - 1], width)
  }

  function EncodeHeader(bits: nat, count: nat): (s: seq<byte>)
    ensures |s| == HEADER_SIZE
  {
    MAGIC + LittleEndian(FORMAT_VERSION, 4) + LittleEndian(bits, 1) + [0] + [0, 0] + LittleEndian(Pow2(bits), 8) + LittleEndian(count, 8)
  }

  function FileBytes(bits: nat, s: seq<Triple>): seq<byte> {
    EncodeHeader(bits, |s|) + EncodeAll(Offsets(s, Pow2(bits)), 8) + EncodeAll(Ids(s), 4)
  }

  // Buckets of a sorted list.

  lemma {:induction false} BelowAppends(s: seq<Triple>, t: Triple, b: nat)
    ensures CountBelow(s + [t], b) == CountBelow(s, b) + if t.first < b then 1 else 0
  {
    if b > 0 {
      BelowAppends(s, t, b - 1);
      assert (s + [t])[..|s|] == s;
    }
  }

  lemma {:induction false} NothingBelow(b: nat)
    ensures CountBelow([], b) == 0
  {
    if b > 0 {
      NothingBelow(b - 1);
    }
  }

  /** In a sorted list the records of the buckets before a bound are a prefix of that length. */
  lemma {:induction false} BucketsSplit(s: seq<Triple>, b: nat)
    requires StrictlySorted(s)
    ensures CountBelow(s, b) <= |s|
    ensures forall i :: 0 <= i < |s| ==> (i < CountBelow(s, b) <==> s[i].first < b)
    decreases |s|
  {
    if s == [] {
      NothingBelow(b);
    } else {
      var front, last := s[..|s| - 1], s[|s| - 1];
      BucketsSplit(front, b);
      BelowAppends(front, last, b);
      assert s == front + [last];
      assert forall i :: 0 <= i < |front| ==> s[i] == front[i] && Less(s[i], last);
      assert front != [] ==> (|front| - 1 < CountBelow(front, b) <==> front[|front| - 1].first < b);
    }
  }

  lemma {:induction false} BelowGrows(s: seq<Triple>, b: nat, c: nat)
    requires b <= c
    ensures CountBelow(s, b) <= CountBelow(s, c)
  {
    if b < c {
      BelowGrows(s, b, c - 1);
    }
  }

  predicate AllOk(bits: nat, s: seq<Triple>) {
    forall i :: 0 <= i < |s| ==> RecordOk(bits, s[i])
  }

  lemma AllBelow(bits: nat, s: seq<Triple>)
    requires StrictlySorted(s) && AllOk(bits, s)
    ensures CountBelow(s, Pow2(bits)) == |s|
  {
    BucketsSplit(s, Pow2(bits));
    assert s != [] ==> RecordOk(bits, s[|s| - 1]);
  }

  /** The bucket of a prefix lists, strictly ascending, exactly the games with a record under the prefix. */
  lemma BucketIsCandidates(bits: nat, s: seq<Triple>, p: nat)
    requires StrictlySorted(s) && AllOk(bits, s)
    ensures CountBelow(s, p) <= CountBelow(s, p + 1) <= |s|
    ensures
      var bucket := Ids(s)[CountBelow(s, p)..CountBelow(s, p + 1)];
      && (forall i, j :: 0 <= i < j < |bucket| ==> bucket[i] < bucket[j])
      && (forall id :: id in bucket <==> Triple(p, id, 0) in s)
  {
    hide CountBelow, Pow2;
    BucketsSplit(s, p);
    BucketsSplit(s, p + 1);
    BelowGrows(s, p, p + 1);
    var from, to := CountBelow(s, p), CountBelow(s, p + 1);
    var bucket := Ids(s)[from..to];
    forall k | from <= k < to
      ensures s[k] == Triple(p, bucket[k - from], 0)
    {
      assert RecordOk(bits, s[k]);
    }
    forall i, j | 0 <= i < j < |bucket|
      ensures bucket[i] < bucket[j]
    {
      assert Less(s[from + i], s[from + j]);
    }
    forall id
      ensures id in bucket <==> Triple(p, id, 0) in s
    {
      if Triple(p, id, 0) in s {
        var k :| 0 <= k < |s| && s[k] == Triple(p, id, 0);
        assert bucket[k - from] == id;
      }
      if id in bucket {
        var i :| 0 <= i < |bucket| && bucket[i] == id;
        assert s[from + i] == Triple(p, id, 0);
      }
    }
  }

  /** There are no more records than pairs of a prefix and a 32-bit id. */
  lemma {:induction false} RecordRank(bits: nat, s: seq<Triple>, i: nat)
    requires StrictlySorted(s) && AllOk(bits, s) && i < |s|
    ensures i <= s[i].first * (U32_MAX + 1) + s[i].second
  {
    if i > 0 {
      RecordRank(bits, s, i - 1);
      var a, b := s[i - 1], s[i];
      assert Less(a, b) && RecordOk(bits, a) && RecordOk(bits, b);
      if a.first < b.first {
        assert (a.first + 1) * (U32_MAX + 1) <= b.first * (U32_MAX + 1);
      }
    }
  }

  lemma RecordsAreFew(bits: nat, s: seq<Triple>)
    requires ValidBits(bits) && StrictlySorted(s) && AllOk(bits, s)
    ensures Pow2(bits) <= 0x100_0000 && |s| <= U64_MAX
  {
    hide Pow2;
    PowGrows(bits, MAX_PREFIX_BITS);
    HashBound();
    if s != [] {
      RecordRank(bits, s, |s| - 1);
      assert RecordOk(bits, s[|s| - 1]);
    }
  }

  // Duplicates.

  /** std::ranges::unique: a record equal to the one before it is dropped. */
  function Unique(s: seq<Triple>): seq<Triple> {
    if |s| < 2 then s
    else
      var front, last := s[..|s| - 1], s[|s| - 1];
      if front[|front| - 1] == last then Unique(front) else Unique(front) + [last]
  }

  lemma {:induction false} UniqueOfSorted(s: seq<Triple>)
    requires Sorted(s)
    ensures StrictlySorted(Unique(s)) && Elements(Unique(s)) == Elements(s)
  {
    if |s| >= 2 {
      var front, last := s[..|s| - 1], s[|s| - 1];
      UniqueOfSorted(front);
      assert s == front + [last] && Elements(s) == Elements(front) + {last};
      if front[|front| - 1] == last {
        assert last in Elements(front);
      } else {
        forall x | x in Unique(front)
          ensures Less(x, last)
        {
          assert x in Elements(front);
          var i :| 0 <= i < |front| && front[i] == x;
          assert !Less(s[|s| - 1], s[i]) && !Less(s[|s| - 1], s[|s| - 2]);
          assert i < |s| - 2 ==> !Less(s[|s| - 2], s[i]);
        }
        forall i | 0 <= i < |Unique(front)|
          ensures Less(Unique(front)[i], last)
        {
        }
        assert Elements(Unique(front) + [last]) == Elements(Unique(front)) + {last};
      }
    }
  }

  lemma StrictIsSorted(s: seq<Triple>)
    requires StrictlySorted(s)
    ensures Sorted(s)
  {
  }

  // Reading a written file back.

  lemma ValuesStep(file: seq<byte>, offset: nat, front: seq<nat>, last: nat, width: nat)
    requires offset + width * |front| + width <= |file| && ValuesAt(file, offset, |front|, width) == front
    requires FixedAt(file, offset + width * |front|, width) == last
    ensures offset + width * (|front| + 1) <= |file| && ValuesAt(file, offset, |front| + 1, width) == front + [last]
  {
    hide FixedAt;
    Distribute(width, |front|, 1);
  }

  lemma EncodedLast(values: seq<nat>, width: nat)
    requires values != []
    ensures EncodeAll(values, width) == EncodeAll(values[..|values| - 1], width) + LittleEndian(values[|values| - 1], width)
  {
  }

  lemma {:induction false} ValuesAreStored(file: seq<byte>, offset: nat, values: seq<nat>, width: nat)
    requires forall i :: 0 <= i < |values| ==> values[i] < Capacity(width)
    requires Holds(file, offset, EncodeAll(values, width))
    ensures offset + width * |values| <= |file|
    ensures ValuesAt(file, offset, |values|, width) == values
    decreases |values|
  {
    hide LittleEndian, Unsigned, FixedAt, Capacity, EncodeAll;
    if values != [] {
      var front, last := values[..|values| - 1], values[|values| - 1];
      EncodedLast(values, width);
      HoldsConcat(file, offset, EncodeAll(front, width), LittleEndian(last, width));
      ValuesAreStored(file, offset, front, width);
      FixedIsStored(file, offset + width * |front|, width, last);
      ValuesStep(file, offset, front, last, width);
      assert values == front + [last];
    }
  }

  function ValuesAt(file: seq<byte>, offset: nat, n: nat, width: nat): (values: seq<nat>)
    requires offset + width * n <= |file|
    ensures |values| == n
  {
    if n == 0 then []
    else
      Distribute(width, n - 1, 1);
      ValuesAt(file, offset, n - 1, width) + [FixedAt(file, offset + width * (n - 1), width)]
  }

  predicate HeaderOk(file: seq<byte>, bits: nat) {
    && |file| >= HEADER_SIZE && file[..8] == MAGIC && FixedAt(file, 8, 4) == FORMAT_VERSION
    && FixedAt(file, 12, 1) == bits && ValidBits(bits) && FixedAt(file, 16, 8) == Pow2(bits)
  }

  predicate Rising(offsets: seq<nat>) {
    forall i, j :: 0 <= i < j < |offsets| ==> offsets[i] <= offsets[j]
  }

  predicate OffsetsOk(offsets: seq<nat>, count: nat) {
    offsets != [] && offsets[0] == 0 && offsets[|offsets| - 1] == count && Rising(offsets)
  }

  /** What open() accepts: bytes after the last id are ignored. */
  predicate Acceptable(file: seq<byte>, bits: nat) {
    && HeaderOk(file, bits)
    && HEADER_SIZE + 8 * (Pow2(bits) + 1) + 4 * FixedAt(file, 24, 8) <= |file|
    && OffsetsOk(ValuesAt(file, HEADER_SIZE, Pow2(bits) + 1, 8), FixedAt(file, 24, 8))
  }

  lemma HeaderHolds(file: seq<byte>, bits: nat, count: nat)
    requires Holds(file, 0, EncodeHeader(bits, count)) && ValidBits(bits) && Pow2(bits) <= U64_MAX && count <= U64_MAX
    ensures HeaderOk(file, bits) && FixedAt(file, 24, 8) == count
  {
    hide LittleEndian, Unsigned, Pow2, Holds;
    WordCapacities();
    HoldsConcat(file, 0, MAGIC + LittleEndian(FORMAT_VERSION, 4) + LittleEndian(bits, 1) + [0] + [0, 0] + LittleEndian(Pow2(bits), 8), LittleEndian(count, 8));
    FixedIsStored(file, 24, 8, count);
    HoldsConcat(file, 0, MAGIC + LittleEndian(FORMAT_VERSION, 4) + LittleEndian(bits, 1) + [0] + [0, 0], LittleEndian(Pow2(bits), 8));
    FixedIsStored(file, 16, 8, Pow2(bits));
    HoldsConcat(file, 0, MAGIC + LittleEndian(FORMAT_VERSION, 4) + LittleEndian(bits, 1) + [0], [0, 0]);
    HoldsConcat(file, 0, MAGIC + LittleEndian(FORMAT_VERSION, 4) + LittleEndian(bits, 1), [0]);
    HoldsConcat(file, 0, MAGIC + LittleEndian(FORMAT_VERSION, 4), LittleEndian(bits, 1));
    FixedIsStored(file, 12, 1, bits);
    HoldsConcat(file, 0, MAGIC, LittleEndian(FORMAT_VERSION, 4));
    FixedIsStored(file, 8, 4, FORMAT_VERSION);
    MagicHeld(file);
  }

  lemma MagicHeld(file: seq<byte>)
    requires Holds(file, 0, MAGIC)
    ensures |file| >= 8 && file[..8] == MAGIC
  {
  }

  /** Every written file is accepted and read back whole. */
  lemma WrittenIsAcceptable(bits: nat, s: seq<Triple>)
    requires ValidBits(bits) && StrictlySorted(s) && AllOk(bits, s)
    ensures
      var file := FileBytes(bits, s);
      && Acceptable(file, bits) && FixedAt(file, 24, 8) == |s|
      && ValuesAt(file, HEADER_SIZE, Pow2(bits) + 1, 8) == Offsets(s, Pow2(bits))
      && ValuesAt(file, HEADER_SIZE + 8 * (Pow2(bits) + 1), |s|, 4) == Ids(s)
  {
    hide LittleEndian, Unsigned, Pow2, EncodeAll, EncodeHeader, HeaderOk, CountBelow, ValuesAt, Holds, FixedAt, StrictlySorted, RecordOk;
    var file, offsets, ids := FileBytes(bits, s), Offsets(s, Pow2(bits)), Ids(s);
    var at := HEADER_SIZE + 8 * (Pow2(bits) + 1);
    RecordsAreFew(bits, s);
    WordCapacities();
    HoldsItself(file);
    HoldsConcat(file, 0, EncodeHeader(bits, |s|) + EncodeAll(offsets, 8), EncodeAll(ids, 4));
    HoldsConcat(file, 0, EncodeHeader(bits, |s|), EncodeAll(offsets, 8));
    HeaderHolds(file, bits, |s|);
    forall b: nat | b <= Pow2(bits)
      ensures CountBelow(s, b) <= |s|
    {
      BucketsSplit(s, b);
    }
    ValuesAreStored(file, HEADER_SIZE, offsets, 8);
    forall i | 0 <= i < |ids|
      ensures ids[i] <= U32_MAX
    {
      IdFits(bits, s, i);
    }
    ValuesAreStored(file, at, ids, 4);
    OffsetsRise(bits, s);
  }

  lemma HoldsItself(file: seq<byte>)
    ensures Holds(file, 0, file)
  {
  }

  lemma IdFits(bits: nat, s: seq<Triple>, i: nat)
    requires AllOk(bits, s) && i < |s|
    ensures s[i].second <= U32_MAX
  {
    assert RecordOk(bits, s[i]);
  }

  lemma OffsetsRise(bits: nat, s: seq<Triple>)
    requires StrictlySorted(s) && AllOk(bits, s)
    ensures OffsetsOk(Offsets(s, Pow2(bits)), |s|)
  {
    AllBelow(bits, s);
    var offsets := Offsets(s, Pow2(bits));
    assert offsets[0] == CountBelow(s, 0);
    forall i, j | 0 <= i < j < |offsets|
      ensures offsets[i] <= offsets[j]
    {
      BelowGrows(s, i, j);
    }
  }

  /** The reader's loop over fixed-width words; a short file leaves the rest of the table zero. */
  method ReadValues(file: seq<byte>, offset: nat, n: nat, width: nat) returns (ok: bool, values: seq<nat>)
    ensures ok <==> n == 0 || offset + width * n <= |file|
    ensures |values| == n
    ensures ok && n > 0 ==> values == ValuesAt(file, offset, n, width)
  {
    values := [];
    var at := offset;
    for i := 0 to n
      invariant at == offset + width * i
      invariant i > 0 ==> at <= |file|
      invariant |values| == i
      invariant i > 0 ==> values == ValuesAt(file, offset, i, width)
    {
      var r := ReadFixed(file, at, width);
      if r.None? {
        TooShort(|file|, offset, i, n, width);
        return false, values + seq(n - i, _ => 0);
      }
      assert width * (i + 1) == width * i + width;
      values := values + [r.value];
      at := at + width;
    }
    return true, values;
  }

  lemma TooShort(size: nat, offset: nat, i: nat, n: nat, width: nat)
    requires i < n && offset + width * i + width > size
    ensures offset + width * n > size
  {
    Distribute(width, i + 1, n - i - 1);
    Distribute(width, i, 1);
  }

  lemma Distribute(width: nat, a: nat, b: nat)
    ensures width * (a + b) == width * a + width * b && width * b >= 0
  {
  }

  /** std::ranges::is_sorted. */
  method IsRising(offsets: seq<nat>) returns (sorted: bool)
    ensures sorted <==> Rising(offsets)
  {
    var i := 1;
    while i < |offsets|
      invariant 0 < i && forall a, b :: 0 <= a < b < i && b < |offsets| ==> offsets[a] <= offsets[b]
    {
      if offsets[i] < offsets[i - 1] {
        return false;
      }
      forall a | 0 <= a < i
        ensures offsets[a] <= offsets[i]
      {
        assert a < i - 1 ==> offsets[a] <= offsets[i - 1];
      }
      i := i + 1;
    }
    return true;
  }

  class PrefixPostings {
    var file: Option<seq<byte>>
    const prefixBits: nat
    const spillThreshold: nat
    var records: seq<Triple>
    var spillRuns: seq<seq<Triple>>
    var offsets: seq<nat>
    var postings: seq<nat>

    ghost predicate Valid()
      reads this
    {
      && AllSorted(spillRuns)
      && (records != [] || spillRuns != [] ==> ValidBits(prefixBits))
      && forall t :: t in Pending() ==> RecordOk(prefixBits, t)
    }

    ghost function Pending(): set<Triple>
      reads this
    {
      Union(spillRuns) + Elements(records)
    }

    /** The tables are those of the record list. */
    ghost predicate Serves(s: seq<Triple>)
      reads this
    {
      offsets == Offsets(s, Pow2(prefixBits)) && postings == Ids(s)
    }

    /** The iterators that candidates() forms for the hash delimit a range of the loaded ids. */
    ghost predicate Answerable(hash: nat)
      reads this
    {
      offsets != [] ==>
        && ValidBits(prefixBits)
        && var p := Prefix(prefixBits, hash);
           p + 1 < |offsets| && offsets[p] <= offsets[p + 1] <= |postings|
    }

    /** The loaded tables answer every hash. */
    ghost predicate Coherent()
      reads this
    {
      offsets != [] ==>
        && ValidBits(prefixBits) && |offsets| == Pow2(prefixBits) + 1
        && Rising(offsets) && offsets[|offsets| - 1] <= |postings|
    }

    lemma CoherentIsAnswerable(hash: nat)
      requires Coherent() && hash <= U64_MAX
      ensures Answerable(hash)
    {
      hide Pow2, Prefix;
      if offsets != [] {
        var p := Prefix(prefixBits, hash);
        PrefixFits(prefixBits, Row(hash, 0));
        assert p + 1 < |offsets| - 1 ==> offsets[p + 1] <= offsets[|offsets| - 1];
      }
    }

    constructor (file: Option<seq<byte>>, bits: nat, threshold: nat)
      ensures Valid() && Coherent() && Pending() == {} && records == [] && spillRuns == [] && offsets == [] && postings == []
      ensures this.file == file && prefixBits == bits && spillThreshold == threshold
    {
      this.file, prefixBits, spillThreshold := file, bits, threshold;
      records, spillRuns, offsets, postings := [], [], [], [];
    }

    method Append(rows: seq<Row>) returns (r: Result<()>)
      requires Valid() && forall i :: 0 <= i < |rows| ==> RowFits(rows[i])
      modifies `records, `spillRuns
      ensures Valid()
      ensures r == if ValidBits(prefixBits) then Ok(()) else Err(InvalidArgument)
      ensures r.Ok? ==> Pending() == old(Pending()) + Elements(RowRecords(prefixBits, rows))
      ensures r.Err? ==> Pending() == old(Pending())
    {
      hide Union, AllSorted, Prefix, Pow2;
      if !ValidBits(prefixBits) {
        return Err(InvalidArgument);
      }
      for i := 0 to |rows|
        invariant Valid()
        invariant Pending() == old(Pending()) + Elements(RowRecords(prefixBits, rows[..i]))
      {
        PrefixFits(prefixBits, rows[i]);
        BufferGrows(records, RecordOf(prefixBits, rows[i]));
        records := records + [RecordOf(prefixBits, rows[i])];
        if |records| >= spillThreshold {
          SpillCurrentBuffer();
        }
        assert RowRecords(prefixBits, rows[..i + 1]) == RowRecords(prefixBits, rows[..i]) + [RecordOf(prefixBits, rows[i])];
        BufferGrows(RowRecords(prefixBits, rows[..i]), RecordOf(prefixBits, rows[i]));
      }
      assert rows[..|rows|] == rows;
      return Ok(());
    }

    /** The buffer becomes one sorted run without duplicates. */
    method SpillCurrentBuffer()
      requires AllSorted(spillRuns)
      modifies `records, `spillRuns
      ensures records == [] && AllSorted(spillRuns)
      ensures Pending() == old(Pending())
      ensures old(records) != [] ==> spillRuns == old(spillRuns) + [Unique(Sort(old(records)))]
      ensures old(records) == [] ==> spillRuns == old(spillRuns)
    {
      if records == [] {
        return;
      }
      SortSorts(records);
      UniqueOfSorted(Sort(records));
      StrictIsSorted(Unique(Sort(records)));
      UnionAppends(spillRuns, Unique(Sort(records)));
      spillRuns := spillRuns + [Unique(Sort(records))];
      records := [];
    }

    /** Either way, the file written is the one determined by the set of pending records. */
    method Finalize() returns (r: Result<()>, ghost s: seq<Triple>)
      requires Valid()
      modifies this
      ensures Valid()
      ensures r == if ValidBits(prefixBits) then Ok(()) else Err(InvalidArgument)
      ensures r.Err? ==> file == old(file) && Pending() == old(Pending())
      ensures r.Ok? ==> StrictlySorted(s) && Elements(s) == old(Pending()) && AllOk(prefixBits, s)
      ensures r.Ok? ==> file == Some(FileBytes(prefixBits, s)) && Pending() == {}
      ensures r.Ok? && old(spillRuns) == [] ==> Serves(s)
      ensures r.Ok? && old(spillRuns) != [] ==> offsets == Offsets(s, Pow2(prefixBits)) && postings == []
    {
      if !ValidBits(prefixBits) {
        return Err(InvalidArgument), [];
      }
      if spillRuns == [] {
        s := FinalizeInMemory();
      } else {
        s := FinalizeExternalMerge();
      }
      return Ok(()), s;
    }

    method FinalizeInMemory() returns (ghost s: seq<Triple>)
      requires Valid() && ValidBits(prefixBits) && spillRuns == []
      modifies this
      ensures Valid() && Pending() == {} && Serves(s)
      ensures StrictlySorted(s) && Elements(s) == old(Pending()) && AllOk(prefixBits, s)
      ensures file == Some(FileBytes(prefixBits, s))
    {
      hide Pow2, FileBytes, CountBelow, CountAt, Sorted, StrictlySorted, Unique;
      SortSorts(records);
      UniqueOfSorted(Sort(records));
      assert Pending() == Elements(records);
      records := Unique(Sort(records));
      s := records;
      assert AllOk(prefixBits, s) by {
        forall i | 0 <= i < |s|
          ensures RecordOk(prefixBits, s[i])
        {
          assert s[i] in Elements(s);
        }
      }
      offsets := CountInMemory(records, prefixBits);
      postings := [];
      for i := 0 to |records|
        modifies `postings
        invariant records == s && postings == Ids(s[..i])
      {
        postings := postings + [records[i].second];
        assert Ids(s[..i + 1]) == Ids(s[..i]) + [s[i].second];
      }
      assert s[..|s|] == s;
      WriteFile(postings, s);
      records := [];
    }

    method FinalizeExternalMerge() returns (ghost s: seq<Triple>)
      requires Valid() && ValidBits(prefixBits)
      modifies this
      ensures Valid() && Pending() == {} && postings == [] && offsets == Offsets(s, Pow2(prefixBits))
      ensures StrictlySorted(s) && Elements(s) == old(Pending()) && AllOk(prefixBits, s)
      ensures file == Some(FileBytes(prefixBits, s))
    {
      hide Pow2, FileBytes, CountBelow, CountAt, Sorted, StrictlySorted, Unique, AllSorted, Elements, Union;
      SpillCurrentBuffer();
      NothingBuffered();
      var scratch, bucketCounts;
      scratch, bucketCounts, s := MergeRuns(spillRuns, prefixBits);
      offsets := PrefixSums(bucketCounts, s, prefixBits);
      WriteFile(scratch, s);
      spillRuns, postings, records := [], [], [];
      NothingPending();
    }

    method WriteFile(ids: seq<nat>, ghost s: seq<Triple>)
      requires offsets == Offsets(s, Pow2(prefixBits)) && ids == Ids(s)
      modifies `file
      ensures file == Some(FileBytes(prefixBits, s))
    {
      hide Pow2, LittleEndian, Offsets, Ids;
      var output := EncodeHeader(prefixBits, |ids|);
      for i := 0 to |offsets|
        modifies {}
        invariant output == EncodeHeader(prefixBits, |ids|) + EncodeAll(offsets[..i], 8)
      {
        output := output + LittleEndian(offsets[i], 8);
        assert offsets[..i + 1][..i] == offsets[..i];
      }
      assert offsets[..|offsets|] == offsets;
      ghost var front := output;
      for i := 0 to |ids|
        modifies {}
        invariant output == front + EncodeAll(ids[..i], 4)
      {
        output := output + LittleEndian(ids[i], 4);
        assert ids[..i + 1][..i] == ids[..i];
      }
      assert ids[..|ids|] == ids;
      file := Some(output);
    }

    method Open() returns (r: Result<()>)
      modifies `offsets, `postings
      ensures file.None? ==> r == Err(IoFailure) && offsets == old(offsets) && postings == old(postings)
      ensures file.Some? ==> r == if Acceptable(file.value, prefixBits) then Ok(()) else Err(SchemaMismatch)
      ensures r.Ok? ==> offsets == ValuesAt(file.value, HEADER_SIZE, Pow2(prefixBits) + 1, 8)
      ensures r.Ok? ==> postings == ValuesAt(file.value, HEADER_SIZE + 8 * (Pow2(prefixBits) + 1), FixedAt(file.value, 24, 8), 4)
      ensures r.Ok? ==> Coherent()
    {
      hide Pow2, FixedAt, ValuesAt;
      if file.None? {
        return Err(IoFailure);
      }
      var data := file.value;
      if |data| < HEADER_SIZE || data[..8] != MAGIC {
        return Err(SchemaMismatch);
      }
      var version := ReadFixed(data, 8, 4);
      var storedBits := ReadFixed(data, 12, 1);
      var bucketCount := ReadFixed(data, 16, 8);
      var postingsCount := ReadFixed(data, 24, 8);
      if version.value != FORMAT_VERSION || storedBits.value != prefixBits || !ValidBits(storedBits.value) || bucketCount.value != Pow2(storedBits.value) {
        return Err(SchemaMismatch);
      }
      var read;
      read, offsets := ReadValues(data, HEADER_SIZE, bucketCount.value + 1, 8);
      if !read {
        return Err(SchemaMismatch);
      }
      var rising := IsRising(offsets);
      if offsets[0] != 0 || offsets[|offsets| - 1] != postingsCount.value || !rising {
        return Err(SchemaMismatch);
      }
      read, postings := ReadValues(data, HEADER_SIZE + 8 * |offsets|, postingsCount.value, 4);
      if !read {
        return Err(SchemaMismatch);
      }
      assert postingsCount.value == 0 ==> postings == ValuesAt(data, HEADER_SIZE + 8 * |offsets|, 0, 4) by { NoValues(data, HEADER_SIZE + 8 * |offsets|); }
      return Ok(());
    }

    method Candidates(hash: nat) returns (r: Result<seq<nat>>)
      requires Answerable(hash) && hash <= U64_MAX
      ensures r.Err? <==> offsets == []
      ensures r.Err? ==> r == Err(InvalidArgument)
      ensures r.Ok? ==>
        var p := Prefix(prefixBits, hash);
        p + 1 < |offsets| && offsets[p] <= offsets[p + 1] <= |postings| && r.value == postings[offsets[p]..offsets[p + 1]]
    {
      hide Pow2, Prefix;
      if offsets == [] {
        return Err(InvalidArgument);
      }
      var prefix := Prefix(prefixBits, hash);
      return Ok(postings[offsets[prefix]..offsets[prefix + 1]]);
    }

    /**
     * After an external merge the offsets are set but the ids are not loaded. Until open() has run, candidates() may be asked exactly
     * for the hashes whose interval lies below every stored hash, and then its empty answer is right.
     */
    lemma StaleUntilOpened(s: seq<Triple>, rows: seq<Row>, hash: nat)
      requires ValidBits(prefixBits) && StrictlySorted(s) && AllOk(prefixBits, s) && hash <= U64_MAX
      requires Elements(s) == Elements(RowRecords(prefixBits, rows))
      requires offsets == Offsets(s, Pow2(prefixBits)) && postings == []
      ensures Answerable(hash) <==> forall i :: 0 <= i < |rows| ==> IntervalBelow(prefixBits, hash, rows[i].hash)
      ensures Answerable(hash) ==> AreCandidates([], prefixBits, rows, hash)
    {
      hide Pow2, Prefix, CountBelow, RecordOk, IntervalBelow, SameInterval;
      var p := Prefix(prefixBits, hash);
      OffsetsRise(prefixBits, s);
      PrefixInRange(hash);
      BelowGrows(s, p, p + 1);
      BucketsSplit(s, p + 1);
      assert Answerable(hash) <==> CountBelow(s, p + 1) == 0;
      if CountBelow(s, p + 1) == 0 {
        forall i | 0 <= i < |rows|
          ensures IntervalBelow(prefixBits, hash, rows[i].hash)
          ensures !SameInterval(prefixBits, rows[i].hash, hash)
        {
          PrefixIsBelow(prefixBits, hash, rows[i].hash);
          PrefixIsInterval(prefixBits, rows[i].hash, hash);
          assert RowRecords(prefixBits, rows)[i] in Elements(s);
          var k :| 0 <= k < |s| && s[k] == RowRecords(prefixBits, rows)[i];
        }
      } else {
        assert s[0] in Elements(RowRecords(prefixBits, rows));
        var i :| 0 <= i < |rows| && RowRecords(prefixBits, rows)[i] == s[0];
        assert Prefix(prefixBits, rows[i].hash) <= p;
        PrefixIsBelow(prefixBits, hash, rows[i].hash);
      }
    }

    lemma PrefixInRange(hash: nat)
      requires ValidBits(prefixBits) && hash <= U64_MAX
      ensures Prefix(prefixBits, hash) < Pow2(prefixBits)
    {
      hide Pow2, Prefix;
      PrefixFits(prefixBits, Row(hash, 0));
    }

    lemma NothingBuffered()
      requires records == []
      ensures Pending() == Union(spillRuns)
    {
    }

    lemma NothingPending()
      requires records == [] && spillRuns == []
      ensures Pending() == {} && AllSorted(spillRuns)
    {
    }
  }

  lemma NoValues(file: seq<byte>, offset: nat)
    requires offset <= |file|
    ensures ValuesAt(file, offset, 0, 4) == []
  {
  }

  lemma CountOne(s: seq<Triple>, i: nat, b: nat)
    requires i < |s|
    ensures CountAt(s[..i + 1], b) == CountAt(s[..i], b) + if s[i].first == b then 1 else 0
  {
    assert s[..i + 1][..i] == s[..i];
  }

  /** In memory: counts one bucket ahead, then prefix sums in place. */
  method CountInMemory(s: seq<Triple>, bits: nat) returns (offsets: seq<nat>)
    requires AllOk(bits, s)
    ensures offsets == Offsets(s, Pow2(bits))
  {
    hide Pow2, CountAt, CountBelow, RecordOk;
    var table := new nat[Pow2(bits) + 1](_ => 0);
    forall b: nat
      ensures CountAt([], b) == 0
    {
      NoneCounted(b);
    }
    for i := 0 to |s|
      invariant table[0] == 0 && CountedAhead(table, s[..i])
    {
      assert RecordOk(bits, s[i]);
      CountRecord(table, s, i, bits);
    }
    assert s[..|s|] == s;
    SumInPlace(table, s);
    offsets := table[..];
  }

  ghost predicate CountedAhead(table: array<nat>, s: seq<Triple>)
    reads table
  {
    forall c :: 1 <= c < table.Length ==> table[c] == CountAt(s, c - 1)
  }

  method CountRecord(table: array<nat>, s: seq<Triple>, i: nat, ghost bits: nat)
    requires i < |s| && table.Length == Pow2(bits) + 1 && RecordOk(bits, s[i]) && table[0] == 0 && CountedAhead(table, s[..i])
    modifies table
    ensures table[0] == 0 && CountedAhead(table, s[..i + 1])
  {
    hide Pow2, CountAt;
    forall b: nat
      ensures CountAt(s[..i + 1], b) == CountAt(s[..i], b) + if s[i].first == b then 1 else 0
    {
      CountOne(s, i, b);
    }
    table[s[i].first + 1] := table[s[i].first + 1] + 1;
  }

  method SumInPlace(table: array<nat>, ghost s: seq<Triple>)
    requires table.Length > 0 && table[0] == 0 && CountedAhead(table, s)
    modifies table
    ensures forall c :: 0 <= c < table.Length ==> table[c] == CountBelow(s, c)
  {
    hide CountAt, CountBelow;
    BelowIs(s, 0);
    for b := 1 to table.Length
      invariant forall c :: 0 <= c < b ==> table[c] == CountBelow(s, c)
      invariant forall c :: b <= c < table.Length ==> table[c] == CountAt(s, c - 1)
    {
      BelowIs(s, b);
      table[b] := table[b] + table[b - 1];
    }
  }

  lemma BelowIs(s: seq<Triple>, b: nat)
    ensures CountBelow(s, b) == if b == 0 then 0 else CountBelow(s, b - 1) + CountAt(s, b - 1)
  {
  }

  lemma NoneCounted(b: nat)
    ensures CountAt([], b) == 0
  {
  }

  /** After an external merge: prefix sums of the bucket counts. */
  method PrefixSums(bucketCounts: seq<nat>, ghost s: seq<Triple>, bits: nat) returns (offsets: seq<nat>)
    requires |bucketCounts| == Pow2(bits) && forall b :: 0 <= b < |bucketCounts| ==> bucketCounts[b] == CountAt(s, b)
    ensures offsets == Offsets(s, Pow2(bits))
  {
    hide CountAt, CountBelow;
    BelowIs(s, 0);
    offsets := [0];
    for b := 0 to |bucketCounts|
      invariant |offsets| == b + 1
      invariant forall c :: 0 <= c <= b ==> offsets[c] == CountBelow(s, c)
    {
      BelowIs(s, b + 1);
      offsets := offsets + [offsets[b] + bucketCounts[b]];
    }
  }

  /** The streaming merge: any cursor with a least record next, a record equal to the previous one dropped. */
  method MergeRuns(runs: seq<seq<Triple>>, bits: nat) returns (scratch: seq<nat>, bucketCounts: seq<nat>, ghost s: seq<Triple>)
    requires AllSorted(runs) && forall t :: t in Union(runs) ==> RecordOk(bits, t)
    ensures StrictlySorted(s) && Elements(s) == Union(runs) && AllOk(bits, s) && scratch == Ids(s)
    ensures |bucketCounts| == Pow2(bits) && forall b :: 0 <= b < |bucketCounts| ==> bucketCounts[b] == CountAt(s, b)
  {
    hide Pow2, CountAt, IsLeast, AllSorted, Union, Sorted;
    var counts := new nat[Pow2(bits)](_ => 0);
    var cursors := runs;
    forall t
      ensures t in Union(runs) <==> InCursors(cursors, t)
    {
      InUnion(runs, t);
    }
    forall b: nat
      ensures CountAt([], b) == 0
    {
      NoneCounted(b);
    }
    hide InCursors;
    scratch, s := [], [];
    var havePrevious, previous := false, Triple(0, 0, 0);
    while !Exhausted(cursors)
      invariant AllSorted(cursors) && StrictlySorted(s) && AllOk(bits, s) && scratch == Ids(s)
      invariant havePrevious == (s != []) && (havePrevious ==> previous == s[|s| - 1])
      invariant forall t :: t in Union(runs) <==> t in s || InCursors(cursors, t)
      invariant havePrevious ==> forall t :: InCursors(cursors, t) ==> !Less(t, previous)
      invariant forall b :: 0 <= b < counts.Length ==> counts[b] == CountAt(s, b)
      decreases Records(cursors)
    {
      LeastIndexExists(cursors);
      var i :| 0 <= i < |cursors| && IsLeast(cursors, i);
      PopLeast(cursors, i);
      LeastIsCurrent(cursors, i);
      var current := cursors[i][0];
      assert current in Union(runs) && RecordOk(bits, current);
      if !havePrevious || current != previous {
        AppendLarger(bits, s, current);
        scratch := scratch + [current.second];
        counts[current.first] := counts[current.first] + 1;
        s := s + [current];
        havePrevious, previous := true, current;
      }
      cursors := cursors[i := cursors[i][1..]];
    }
    forall t
      ensures !InCursors(cursors, t)
    {
      NoneLeft(cursors, t);
    }
    bucketCounts := counts[..];
  }

  lemma AppendLarger(bits: nat, s: seq<Triple>, t: Triple)
    requires StrictlySorted(s) && AllOk(bits, s) && RecordOk(bits, t)
    requires s != [] ==> t != s[|s| - 1] && !Less(t, s[|s| - 1])
    ensures StrictlySorted(s + [t]) && AllOk(bits, s + [t]) && Ids(s + [t]) == Ids(s) + [t.second]
    ensures forall b: nat :: CountAt(s + [t], b) == CountAt(s, b) + if t.first == b then 1 else 0
    ensures forall x :: x in s + [t] <==> x in s || x == t
  {
    hide Pow2, Ids, CountAt, RecordOk, StrictlySorted;
    SortedAppend(s, t);
    forall b: nat
      ensures CountAt(s + [t], b) == CountAt(s, b) + if t.first == b then 1 else 0
    {
      CountAppend(s, t, b);
    }
    IdsAppend(s, t);
  }

  lemma SortedAppend(s: seq<Triple>, t: Triple)
    requires StrictlySorted(s) && (s != [] ==> t != s[|s| - 1] && !Less(t, s[|s| - 1]))
    ensures StrictlySorted(s + [t])
  {
    assert s != [] ==> Less(s[|s| - 1], t);
    forall i | 0 <= i < |s|
      ensures Less(s[i], t)
    {
      assert i < |s| - 1 ==> Less(s[i], s[|s| - 1]);
    }
  }

  lemma CountAppend(s: seq<Triple>, t: Triple, b: nat)
    ensures CountAt(s + [t], b) == CountAt(s, b) + if t.first == b then 1 else 0
  {
    assert (s + [t])[..|s|] == s;
  }

  lemma IdsAppend(s: seq<Triple>, t: Triple)
    ensures Ids(s + [t]) == Ids(s) + [t.second]
  {
  }

  /** In-memory and external finalization, and any two spill thresholds, write the same file. */
  lemma FileIsDetermined(bits: nat, s: seq<Triple>, t: seq<Triple>)
    requires StrictlySorted(s) && StrictlySorted(t) && Elements(s) == Elements(t)
    ensures FileBytes(bits, s) == FileBytes(bits, t)
  {
    StrictlySortedIsUnique(s, t);
  }

  ghost predicate SharesPrefix(bits: nat, rows: seq<Row>, hash: nat, id: nat)
    requires bits <= HASH_BITS
  {
    exists i :: 0 <= i < |rows| && rows[i].game == id && SameInterval(bits, rows[i].hash, hash)
  }

  /** Strictly ascending, exactly the games with a row whose hash lies in the interval of this one. */
  ghost predicate AreCandidates(ids: seq<nat>, bits: nat, rows: seq<Row>, hash: nat)
    requires bits <= HASH_BITS
  {
    && (forall i, j :: 0 <= i < j < |ids| ==> ids[i] < ids[j])
    && (forall id :: id in ids <==> SharesPrefix(bits, rows, hash, id))
  }

  lemma CandidatesAreAnswers(bits: nat, rows: seq<Row>, s: seq<Triple>, hash: nat)
    requires ValidBits(bits) && StrictlySorted(s) && AllOk(bits, s) && Elements(s) == Elements(RowRecords(bits, rows)) && hash <= U64_MAX
    ensures
      var p := Prefix(bits, hash);
      && CountBelow(s, p) <= CountBelow(s, p + 1) <= |s|
      && AreCandidates(Ids(s)[CountBelow(s, p)..CountBelow(s, p + 1)], bits, rows, hash)
  {
    hide Prefix, CountBelow, StrictlySorted, SameInterval;
    var p := Prefix(bits, hash);
    forall i | 0 <= i < |rows|
      ensures SameInterval(bits, rows[i].hash, hash) <==> Prefix(bits, rows[i].hash) == p
    {
      PrefixIsInterval(bits, rows[i].hash, hash);
    }
    BucketIsCandidates(bits, s, p);
    forall id
      ensures Triple(p, id, 0) in s <==> SharesPrefix(bits, rows, hash, id)
    {
      assert Triple(p, id, 0) in s <==> Triple(p, id, 0) in Elements(RowRecords(bits, rows));
      if Triple(p, id, 0) in RowRecords(bits, rows) {
        var i :| 0 <= i < |rows| && RowRecords(bits, rows)[i] == Triple(p, id, 0);
        assert rows[i].game == id && Prefix(bits, rows[i].hash) == p;
      }
      if i :| 0 <= i < |rows| && rows[i].game == id && SameInterval(bits, rows[i].hash, hash) {
        assert RowRecords(bits, rows)[i] == Triple(p, id, 0);
      }
    }
  }

  /** Append, finalize, open and ask: whatever the threshold, the answer is the games that share the prefix. */
  method Ask(file: Option<seq<byte>>, bits: nat, threshold: nat, rows: seq<Row>, hash: nat) returns (r: Result<seq<nat>>)
    requires hash <= U64_MAX && forall i :: 0 <= i < |rows| ==> RowFits(rows[i])
    ensures r.Ok? <==> ValidBits(bits)
    ensures r.Ok? ==> AreCandidates(r.value, bits, rows, hash)
  {
    hide Pow2, Prefix, CountBelow, FileBytes, AreCandidates, Acceptable, ValuesAt, FixedAt, Ids, RecordOk, StrictlySorted;
    var sidecar := new PrefixPostings(file, bits, threshold);
    var appended := sidecar.Append(rows);
    if appended.Err? {
      return Err(InvalidArgument);
    }
    assert sidecar.Pending() == Elements(RowRecords(bits, rows));
    var finalized;
    ghost var s;
    finalized, s := sidecar.Finalize();
    WrittenIsAcceptable(bits, s);
    var loaded := sidecar.Open();
    CandidatesAreAnswers(bits, rows, s, hash);
    sidecar.CoherentIsAnswerable(hash);
    r := sidecar.Candidates(hash);
  }
}
