/** The bytes of the opening tree file: plain LEB128 varints, fixed-width words, doubles, and records made of them. */
module OpeningTreeBytes {
  import opened Words
  import Bitmaps
  import BufferedWriter
  import Uleb128

  // Varints.

  const MAX_VARINT: nat := 10

  /** The index of the first final byte, if it is one of the ten bytes from the offset on. */
  function FinalByte(data: seq<byte>, offset: nat, k: nat): (r: Option<nat>)
    ensures r.Some? ==> k <= r.value < MAX_VARINT && offset + r.value < |data|
    decreases MAX_VARINT - k
  {
    if k >= MAX_VARINT || offset + k >= |data| then None
    else if data[offset + k] < 128 then Some(k)
    else FinalByte(data, offset, k + 1)
  }

  /** What read_varint returns: the payload, if it fits 64 bits. */
  function VarintAt(data: seq<byte>, offset: nat): (r: Option<(nat, nat)>)
    ensures r.Some? ==> r.value.0 <= U64_MAX && offset < r.value.1 <= |data|
  {
    var k := FinalByte(data, offset, 0);
    if k.None? then None
    else
      var value := Uleb128.Payload(data[offset..offset + k.value + 1]);
      if value <= U64_MAX then Some((value, offset + k.value + 1)) else None
  }

  lemma {:induction false} FinalByteIs(data: seq<byte>, offset: nat, k: nat, n: nat)
    requires k <= n < MAX_VARINT && Uleb128.Continues(data, offset, n) && offset + n < |data| && data[offset + n] < 128
    ensures FinalByte(data, offset, k) == Some(n)
    decreases n - k
  {
    if k < n {
      FinalByteIs(data, offset, k + 1, n);
    }
  }

  lemma {:induction false} NoFinalByte(data: seq<byte>, offset: nat, k: nat, n: nat)
    requires k <= n <= MAX_VARINT && (n == MAX_VARINT || offset + n >= |data|)
    requires forall i :: offset + k <= i < offset + n && i < |data| ==> data[i] >= 128
    ensures FinalByte(data, offset, k).None?
    decreases n - k
  {
    if k < n && offset + k < |data| {
      NoFinalByte(data, offset, k + 1, n);
    }
  }

  /** Every written varint is read back, whatever follows. */
  lemma WrittenVarint(data: seq<byte>, offset: nat, value: nat)
    requires Uleb128.StoredAt(data, offset, value)
    ensures VarintAt(data, offset) == Some((value, offset + |Uleb128.Encode(value)|))
  {
    hide Uleb128.Encode, FinalByte;
    var s := Uleb128.Encode(value);
    Uleb128.EncodeIsCanonical(value);
    Uleb128.EncodedSize(value);
    var n := |s| - 1;
    forall i | offset <= i < offset + |s|
      ensures data[i] == s[i - offset]
    {
      assert data[offset..offset + |s|][i - offset] == s[i - offset];
    }
    FinalByteIs(data, offset, 0, n);
  }

  /** Unlike the reader of the postings it also takes superfluous zero groups; where both read a value it is the same one. */
  lemma VarintReaders(data: seq<byte>, offset: nat)
    ensures
      var lenient, strict := VarintAt(data, offset), Uleb128.At(data, offset);
      strict == if lenient.Some? && |Uleb128.Encode(lenient.value.0)| == lenient.value.1 - offset then lenient else None
  {
    hide Uleb128.Encode, FinalByte, Uleb128.At;
    if v :| Uleb128.StoredAt(data, offset, v) {
      WrittenVarint(data, offset, v);
      Uleb128.StoredIsRead(data, offset, v);
    } else {
      NothingStored(data, offset);
      var k := FinalByte(data, offset, 0);
      if VarintAt(data, offset).Some? {
        BeforeFinal(data, offset, 0, k.value);
        LastPayload(data, offset, k.value);
        Uleb128.FinalByteDecides(data, offset, k.value);
      }
    }
  }

  lemma NothingStored(data: seq<byte>, offset: nat)
    requires forall v :: !Uleb128.StoredAt(data, offset, v)
    ensures Uleb128.At(data, offset).None?
  {
  }

  lemma {:induction false} BeforeFinal(data: seq<byte>, offset: nat, k: nat, n: nat)
    requires FinalByte(data, offset, k) == Some(n) && Uleb128.Continues(data, offset, k)
    ensures Uleb128.Continues(data, offset, n) && offset + n < |data| && data[offset + n] < 128
    decreases MAX_VARINT - k
  {
    if data[offset + k] >= 128 {
      BeforeFinal(data, offset, k + 1, n);
    }
  }

  /** A tenth byte over one overflows 64 bits. */
  lemma LastPayload(data: seq<byte>, offset: nat, k: nat)
    requires k < MAX_VARINT && Uleb128.Continues(data, offset, k) && offset + k < |data|
    ensures Uleb128.Payload(data[offset..offset + k + 1]) <= U64_MAX <==> k < 9 || data[offset + k] % 128 <= 1
  {
    var s := data[offset..offset + k];
    assert data[offset..offset + k + 1] == s + [data[offset + k]];
    Uleb128.PayloadOfAppended(s, data[offset + k]);
    Uleb128.PlacesOf64Bits();
    if k < 9 || data[offset + k] % 128 <= 1 {
      Uleb128.ReadFits(s, data[offset + k] % 128, k);
    }
  }

  /** read_varint. */
  method ReadVarint(data: seq<byte>, offset: nat) returns (r: Option<(nat, nat)>)
    ensures r == VarintAt(data, offset)
  {
    hide FinalByte, Uleb128.Payload;
    var value: nat, place: nat, next := 0, 1, offset;
    NoBytes(data, offset);
    for index := 0 to MAX_VARINT
      invariant next == offset + index && place == Uleb128.Place(index)
      invariant index > 0 || offset <= |data| ==> Uleb128.Continues(data, offset, index) && value == Uleb128.Payload(data[offset..next])
      invariant index == 0 ==> value == 0
    {
      if next >= |data| {
        NoFinalByte(data, offset, 0, index);
        return None;
      }
      var b := data[next];
      var payload := b % 128;
      LastPayload(data, offset, index);
      if index == 9 && payload > 1 {
        if b < 128 {
          FinalByteIs(data, offset, 0, index);
        } else {
          NoFinalByte(data, offset, 0, MAX_VARINT);
        }
        return None;
      }
      Uleb128.PayloadOfAppended(data[offset..next], b);
      assert data[offset..next] + [b] == data[offset..next + 1];
      value := value + place * payload;
      next := next + 1;
      if b < 128 {
        FinalByteIs(data, offset, 0, index);
        return Some((value, next));
      }
      place := 128 * place;
    }
    NoFinalByte(data, offset, 0, MAX_VARINT);
    return None;
  }

  lemma NoBytes(data: seq<byte>, offset: nat)
    ensures offset <= |data| ==> data[offset..offset] == [] && Uleb128.Payload(data[offset..offset]) == 0
  {
  }

  // Records of fields.

  datatype Field = Fixed(width: nat) | Varint

  function EncodeField(f: Field, value: nat): (s: seq<byte>)
    ensures f.Varint? ==> |s| >= 1
    ensures f.Fixed? ==> |s| == f.width
  {
    match f case Fixed(width) => LittleEndian(value, width) case Varint => Uleb128.Encode(value)
  }

  predicate FieldFits(f: Field, value: nat) {
    match f case Fixed(width) => value < Capacity(width) case Varint => value <= U64_MAX
  }

  function FieldAt(f: Field, data: seq<byte>, offset: nat): (r: Option<(nat, nat)>)
    ensures r.Some? ==> FieldFits(f, r.value.0) && offset + MinimumSize(f) <= r.value.1 <= |data|
  {
    match f
    case Fixed(width) =>
      if offset + width <= |data| then
        LittleEndianInvertsUnsigned(data[offset..offset + width]);
        Some((FixedAt(data, offset, width), offset + width))
      else None
    case Varint => VarintAt(data, offset)
  }

  function MinimumSize(f: Field): nat {
    match f case Fixed(width) => width case Varint => 1
  }

  function EncodeFields(layout: seq<Field>, values: seq<nat>): seq<byte>
    requires |layout| == |values|
  {
    if layout == [] then [] else EncodeField(layout[0], values[0]) + EncodeFields(layout[1..], values[1..])
  }

  predicate FieldsFit(layout: seq<Field>, values: seq<nat>)
    requires |layout| == |values|
  {
    forall i :: 0 <= i < |layout| ==> FieldFits(layout[i], values[i])
  }

  /** The values of consecutive fields and the offset behind them. */
  function FieldsAt(layout: seq<Field>, data: seq<byte>, offset: nat): (r: Option<(seq<nat>, nat)>)
    ensures r.Some? ==> |r.value.0| == |layout| && offset <= r.value.1
    ensures r.Some? && layout != [] ==> r.value.1 <= |data|
    ensures r.Some? ==> FieldsFit(layout, r.value.0)
  {
    if layout == [] then Some(([], offset))
    else match FieldAt(layout[0], data, offset)
      case None => None
      case Some((value, next)) =>
        match FieldsAt(layout[1..], data, next)
        case None => None
        case Some((values, end)) => Some(([value] + values, end))
  }

  function MinimumTotal(layout: seq<Field>): nat {
    if layout == [] then 0 else MinimumSize(layout[0]) + MinimumTotal(layout[1..])
  }

  lemma {:induction false} FieldsTakeRoom(layout: seq<Field>, data: seq<byte>, offset: nat)
    requires FieldsAt(layout, data, offset).Some?
    ensures offset + MinimumTotal(layout) <= FieldsAt(layout, data, offset).value.1
    decreases |layout|
  {
    hide FieldAt, MinimumSize;
    if layout != [] {
      FieldsTakeRoom(layout[1..], data, FieldAt(layout[0], data, offset).value.1);
    }
  }

  lemma FieldIsRead(f: Field, value: nat, data: seq<byte>, offset: nat)
    requires FieldFits(f, value) && Holds(data, offset, EncodeField(f, value))
    ensures FieldAt(f, data, offset) == Some((value, offset + |EncodeField(f, value)|))
  {
    match f
    case Fixed(width) => FixedIsStored(data, offset, width, value);
    case Varint => WrittenVarint(data, offset, value);
  }

  /** Written fields are read back. */
  lemma {:induction false} FieldsAreRead(layout: seq<Field>, values: seq<nat>, data: seq<byte>, offset: nat)
    requires |layout| == |values| && FieldsFit(layout, values) && Holds(data, offset, EncodeFields(layout, values))
    ensures FieldsAt(layout, data, offset) == Some((values, offset + |EncodeFields(layout, values)|))
    decreases |layout|
  {
    hide EncodeField, FieldAt, FieldFits, Holds;
    if layout != [] {
      var first, rest := EncodeField(layout[0], values[0]), EncodeFields(layout[1..], values[1..]);
      HoldsConcat(data, offset, first, rest);
      FieldIsRead(layout[0], values[0], data, offset);
      FieldsAreRead(layout[1..], values[1..], data, offset + |first|);
      assert values == [values[0]] + values[1..];
    }
  }

  function Prepended(values: seq<nat>, r: Option<(seq<nat>, nat)>): Option<(seq<nat>, nat)> {
    if r.Some? then Some((values + r.value.0, r.value.1)) else None
  }

  lemma FieldsStep(values: seq<nat>, layout: seq<Field>, data: seq<byte>, offset: nat, i: nat)
    requires i < |layout|
    ensures
      var field := FieldAt(layout[i], data, offset);
      Prepended(values, FieldsAt(layout[i..], data, offset))
      == if field.None? then None else Prepended(values + [field.value.0], FieldsAt(layout[i + 1..], data, field.value.1))
  {
    hide FieldAt;
    assert layout[i..][0] == layout[i] && layout[i..][1..] == layout[i + 1..];
    var field := FieldAt(layout[i], data, offset);
    if field.Some? {
      var rest := FieldsAt(layout[i + 1..], data, field.value.1);
      if rest.Some? {
        assert values + ([field.value.0] + rest.value.0) == values + [field.value.0] + rest.value.0;
      }
    }
  }

  lemma PrependedToNothing(values: seq<nat>, data: seq<byte>, offset: nat, r: Option<(seq<nat>, nat)>)
    ensures Prepended([], r) == r && Prepended(values, FieldsAt([], data, offset)) == Some((values, offset))
  {
    if r.Some? {
      assert [] + r.value.0 == r.value.0;
    }
    assert values + [] == values;
  }

  /** A chain of reads that stops at the first one that fails. */
  method ReadFields(layout: seq<Field>, data: seq<byte>, offset: nat) returns (r: Option<(seq<nat>, nat)>)
    ensures r == FieldsAt(layout, data, offset)
  {
    hide FieldAt, FieldsAt, Prepended;
    var values: seq<nat>, next := [], offset;
    assert layout[0..] == layout;
    PrependedToNothing([], data, offset, FieldsAt(layout, data, offset));
    for i := 0 to |layout|
      invariant FieldsAt(layout, data, offset) == Prepended(values, FieldsAt(layout[i..], data, next))
    {
      FieldsStep(values, layout, data, next, i);
      var field := ReadField(layout[i], data, next);
      if field.None? {
        return None;
      }
      values, next := values + [field.value.0], field.value.1;
    }
    assert layout[|layout|..] == [];
    PrependedToNothing(values, data, next, None);
    return Some((values, next));
  }

  method ReadField(f: Field, data: seq<byte>, offset: nat) returns (r: Option<(nat, nat)>)
    ensures r == FieldAt(f, data, offset)
  {
    match f
    case Fixed(width) =>
      var value := ReadFixed(data, offset, width);
      return if value.Some? then Some((value.value, offset + width)) else None;
    case Varint =>
      r := ReadVarint(data, offset);
  }

  method WriteFields(writer: BufferedWriter.BufferedFileWriter, layout: seq<Field>, values: seq<nat>)
    requires writer.Valid() && |layout| == |values|
    modifies writer
    ensures writer.Valid() && writer.Contents() == old(writer.Contents()) + EncodeFields(layout, values)
  {
    hide EncodeField, BufferedWriter.BufferedFileWriter.Contents, BufferedWriter.BufferedFileWriter.Valid;
    assert layout[0..] == layout && values[0..] == values;
    for i := 0 to |layout|
      invariant writer.Valid()
      invariant writer.Contents() + EncodeFields(layout[i..], values[i..]) == old(writer.Contents()) + EncodeFields(layout, values)
    {
      ghost var before, rest := writer.Contents(), EncodeFields(layout[i + 1..], values[i + 1..]);
      assert layout[i..][1..] == layout[i + 1..] && values[i..][1..] == values[i + 1..];
      WriteField(writer, layout[i], values[i]);
      assert writer.Contents() + rest == before + (EncodeField(layout[i], values[i]) + rest);
    }
    assert layout[|layout|..] == [] && values[|layout|..] == [];
    assert writer.Contents() + [] == writer.Contents();
  }

  method WriteField(writer: BufferedWriter.BufferedFileWriter, f: Field, value: nat)
    requires writer.Valid()
    modifies writer
    ensures writer.Valid() && writer.Contents() == old(writer.Contents()) + EncodeField(f, value)
  {
    match f
    case Fixed(width) => writer.WriteFixed(value, width);
    case Varint => writer.WriteUleb128(value);
  }

  // Doubles.

  const FRACTION: nat := 0x10_0000_0000_0000
  const SIGN: nat := 0x8000_0000_0000_0000
  const EXPONENTS: nat := 2048
  const FRACTION_BITS: nat := 52
  const HALF_EXPONENT: nat := 1022

  function Log2(n: nat): (e: nat)
    requires n > 0
    ensures Bitmaps.Pow2(e) <= n < 2 * Bitmaps.Pow2(e)
  {
    if n == 1 then 0 else 1 + Log2(n / 2)
  }

  function Scale(n: nat, e: nat): nat
    requires e <= FRACTION_BITS
  {
    n * Bitmaps.Pow2(FRACTION_BITS - e)
  }

  function Magnitude(x: int): nat { if x < 0 then -x else x }

  /** The IEEE 754 binary64 word of x / 2; beyond 2^53 the word is only a placeholder, for such sums are rounded before. */
  function DoubleWord(x: int): (word: nat)
    ensures word <= U64_MAX
  {
    if x == 0 then 0
    else
      var n, sign := Magnitude(x), if x < 0 then SIGN else 0;
      var e := Log2(n);
      if e > FRACTION_BITS then sign
      else
        ScaledRange(n, e);
        sign + (HALF_EXPONENT + e) * FRACTION + (Scale(n, e) - FRACTION)
  }

  /** The integer x for which a word stands for x / 2. */
  function HalvesOf(word: nat): int {
    var exponent, fraction := (word / FRACTION) % EXPONENTS, word % FRACTION;
    if exponent < HALF_EXPONENT || exponent > HALF_EXPONENT + FRACTION_BITS then 0
    else
      var n: int := (FRACTION + fraction) / Bitmaps.Pow2(FRACTION_BITS - (exponent - HALF_EXPONENT));
      if (word / SIGN) % 2 == 1 then -n else n
  }

  lemma TwoTo52()
    ensures Bitmaps.Pow2(52) == FRACTION && Bitmaps.Pow2(53) == 2 * FRACTION
  {
    assert Bitmaps.Pow2(13) == 8192 by {
      assert Bitmaps.Pow2(5) == 32;
      assert Bitmaps.Pow2(9) == 512;
    }
    DoublePow(13);
    DoublePow(26);
  }

  lemma DoublePow(n: nat)
    ensures Bitmaps.Pow2(2 * n) == Bitmaps.Pow2(n) * Bitmaps.Pow2(n)
  {
    hide Bitmaps.Pow2;
    SumOfPowers(n, n);
  }

  lemma {:induction false} SumOfPowers(n: nat, m: nat)
    ensures Bitmaps.Pow2(n + m) == Bitmaps.Pow2(n) * Bitmaps.Pow2(m)
  {
    if n > 0 {
      SumOfPowers(n - 1, m);
      assert 2 * (Bitmaps.Pow2(n - 1) * Bitmaps.Pow2(m)) == (2 * Bitmaps.Pow2(n - 1)) * Bitmaps.Pow2(m);
    }
  }

  lemma ProductGrows(a: nat, b: nat, c: nat)
    requires a < b && c > 0
    ensures a * c < b * c
  {
  }

  lemma ScaledRange(n: nat, e: nat)
    requires e <= FRACTION_BITS && Bitmaps.Pow2(e) <= n < 2 * Bitmaps.Pow2(e)
    ensures FRACTION <= Scale(n, e) < 2 * FRACTION
  {
    hide Bitmaps.Pow2;
    var c := Bitmaps.Pow2(FRACTION_BITS - e);
    SumOfPowers(e, FRACTION_BITS - e);
    TwoTo52();
    if n > Bitmaps.Pow2(e) {
      ProductGrows(Bitmaps.Pow2(e), n, c);
    }
    ProductGrows(n, 2 * Bitmaps.Pow2(e), c);
    assert (2 * Bitmaps.Pow2(e)) * c == 2 * (Bitmaps.Pow2(e) * c);
  }

  lemma {:induction false} QuotientOfProduct(n: nat, c: nat)
    requires c > 0
    ensures n * c / c == n
  {
    RemainderOfMultiple(c, n, 0);
    assert c * n == n * c;
  }

  lemma SmallLog(n: nat)
    requires 0 < n < 2 * FRACTION
    ensures Log2(n) <= FRACTION_BITS
  {
    hide Log2;
    TwoTo52();
    if Log2(n) > FRACTION_BITS {
      Bitmaps.PowGrows(53, Log2(n));
    }
  }

  /** Sums of halves below 2^53 survive as doubles. */
  lemma DoublesAreExact(x: int)
    requires Magnitude(x) < 2 * FRACTION
    ensures HalvesOf(DoubleWord(x)) == x
  {
    if x != 0 {
      var n, sign := Magnitude(x), if x < 0 then SIGN else 0;
      SmallLog(n);
      var e := Log2(n);
      ScaledRange(n, e);
      WordParts(sign, HALF_EXPONENT + e, Scale(n, e) - FRACTION);
      QuotientOfProduct(n, Bitmaps.Pow2(FRACTION_BITS - e));
    }
  }

  lemma WordParts(sign: nat, exponent: nat, fraction: nat)
    requires (sign == 0 || sign == SIGN) && exponent < EXPONENTS && fraction < FRACTION
    ensures
      var word := sign + exponent * FRACTION + fraction;
      && (word / FRACTION) % EXPONENTS == exponent && word % FRACTION == fraction
      && ((word / SIGN) % 2 == 1 <==> sign == SIGN)
  {
  }
}
