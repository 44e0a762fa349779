/** Bytes, machine-word bounds and the little-endian fixed-width codec shared by every file format. */
module Words {

  datatype Option<+T> = None | Some(value: T)

  datatype ErrorCode = IoFailure | SchemaMismatch | InvalidArgument | InvalidState | NotFound | NotEditable | Duplicate

  datatype Result<+T> = Ok(value: T) | Err(error: ErrorCode)

  type byte = b: int | 0 <= b < 256

  const U16_MAX: nat := 0xFFFF
  const U32_MAX: nat := 0xFFFF_FFFF
  const U64_MAX: nat := 0xFFFF_FFFF_FFFF_FFFF
  // the largest offset a file stream can seek to
  const STREAM_MAX: nat := 0x7FFF_FFFF_FFFF_FFFF

  function Min(a: int, b: int): int { if a < b then a else b }

  function Max(a: int, b: int): int { if a < b then b else a }

  /** The low `width` bytes of a value, least significant first; higher bytes are cut off. */
  function LittleEndian(value: nat, width: nat): (s: seq<byte>)
    ensures |s| == width
  {
    if width == 0 then [] else [value % 256] + LittleEndian(value / 256, width - 1)
  }

  function Unsigned(s: seq<byte>): nat {
    if s == [] then 0 else s[0] + 256 * Unsigned(s[1..])
  }

  function Capacity(width: nat): (c: nat)
    ensures c > 0
  {
    if width == 0 then 1 else 256 * Capacity(width - 1)
  }

  lemma WordCapacities()
    ensures Capacity(1) == 256
    ensures Capacity(2) == U16_MAX + 1
    ensures Capacity(4) == U32_MAX + 1
    ensures Capacity(5) == 0x100_0000_0000
    ensures Capacity(8) == U64_MAX + 1
  {
    assert Capacity(1) == 256 * Capacity(0);
    assert Capacity(2) == 256 * Capacity(1);
    assert Capacity(3) == 256 * Capacity(2);
    assert Capacity(4) == 256 * Capacity(3);
    assert Capacity(5) == 256 * Capacity(4);
    assert Capacity(6) == 256 * Capacity(5);
    assert Capacity(7) == 256 * Capacity(6);
  }

  lemma {:induction false} UnsignedInvertsLittleEndian(value: nat, width: nat)
    requires value < Capacity(width)
    ensures Unsigned(LittleEndian(value, width)) == value
  {
    if width > 0 {
      UnsignedInvertsLittleEndian(value / 256, width - 1);
      assert LittleEndian(value, width)[1..] == LittleEndian(value / 256, width - 1);
    }
  }

  lemma {:induction false} MultipleIsLarger(c: nat, q: nat, d: nat)
    requires d >= 1
    ensures c * (q + d) >= c * q + c
  {
    if d == 1 {
      assert c * (q + 1) == c * q + c;
    } else {
      MultipleIsLarger(c, q, d - 1);
      assert c * (q + d) == c * (q + (d - 1)) + c;
    }
  }

  lemma QuotientIsUnique(c: nat, q: nat, x: nat, q': nat, x': nat)
    requires x < c && x' < c && c * q + x == c * q' + x'
    ensures q == q' && x == x'
  {
    if q < q' {
      MultipleIsLarger(c, q, q' - q);
    } else if q' < q {
      MultipleIsLarger(c, q', q - q');
    }
  }

  lemma RemainderOfMultiple(c: nat, q: nat, x: nat)
    requires x < c
    ensures (c * q + x) % c == x && (c * q + x) / c == q
  {
    var v := c * q + x;
    assert v >= 0 by { assert c * q >= 0; }
    QuotientIsUnique(c, q, x, v / c, v % c);
  }

  /** Writing in fixed width keeps the value modulo the width's capacity. */
  lemma {:induction false} LittleEndianTruncates(value: nat, width: nat)
    ensures LittleEndian(value % Capacity(width), width) == LittleEndian(value, width)
  {
    if width > 0 {
      var c := Capacity(width - 1);
      var q, r := value / (256 * c), value % (256 * c);
      assert value == 256 * (c * q) + r;
      RemainderOfMultiple(c, q, r / 256);
      assert value / 256 == c * q + r / 256 && value % 256 == r % 256;
      LittleEndianTruncates(value / 256, width - 1);
    }
  }

  lemma {:induction false} LittleEndianInvertsUnsigned(s: seq<byte>)
    ensures Unsigned(s) < Capacity(|s|)
    ensures LittleEndian(Unsigned(s), |s|) == s
  {
    if s != [] {
      LittleEndianInvertsUnsigned(s[1..]);
      assert Unsigned(s) % 256 == s[0] && Unsigned(s) / 256 == Unsigned(s[1..]);
    }
  }

  lemma {:induction false} UnsignedOfAppended(s: seq<byte>, b: byte)
    ensures Unsigned(s + [b]) == Unsigned(s) + Capacity(|s|) * b
  {
    if s == [] {
    } else {
      UnsignedOfAppended(s[1..], b);
      assert (s + [b])[1..] == s[1..] + [b];
      assert 256 * (Capacity(|s| - 1) * b) == Capacity(|s|) * b;
    }
  }

  /** The byte string lies in the data at the offset. */
  predicate Holds(data: seq<byte>, offset: nat, s: seq<byte>) {
    offset + |s| <= |data| && data[offset..offset + |s|] == s
  }

  lemma HoldsNothing(data: seq<byte>, offset: nat)
    requires offset <= |data|
    ensures Holds(data, offset, [])
  {
  }

  lemma HoldsConcat(data: seq<byte>, offset: nat, s: seq<byte>, t: seq<byte>)
    ensures Holds(data, offset, s + t) <==> Holds(data, offset, s) && Holds(data, offset + |s|, t)
  {
    if offset + |s + t| <= |data| {
      var both := data[offset..offset + |s + t|];
      assert both[..|s|] == data[offset..offset + |s|];
      assert both[|s|..] == data[offset + |s|..offset + |s| + |t|];
      assert both == both[..|s|] + both[|s|..];
      assert (s + t)[..|s|] == s && (s + t)[|s|..] == t;
    }
  }

  /** The fixed-width word stored at an offset. */
  function FixedAt(data: seq<byte>, offset: nat, width: nat): nat
    requires offset + width <= |data|
  {
    Unsigned(data[offset..offset + width])
  }

  lemma FixedIsStored(data: seq<byte>, offset: nat, width: nat, value: nat)
    requires value < Capacity(width)
    ensures Holds(data, offset, LittleEndian(value, width)) <==> offset + width <= |data| && FixedAt(data, offset, width) == value
  {
    UnsignedInvertsLittleEndian(value, width);
    if offset + width <= |data| {
      LittleEndianInvertsUnsigned(data[offset..offset + width]);
    }
  }

  /** read_little_endian over a byte span: fails only when the word does not fit. */
  method ReadFixed(data: seq<byte>, offset: nat, width: nat) returns (r: Option<nat>)
    ensures r.Some? <==> offset + width <= |data|
    ensures r.Some? ==> r.value == FixedAt(data, offset, width) && r.value < Capacity(width)
  {
    if offset + width > |data| {
      return None;
    }
    var raw: nat, place: nat, index := 0, 1, 0;
    while index < width
      invariant 0 <= index <= width
      invariant place == Capacity(index)
      invariant raw == FixedAt(data, offset, index)
    {
      UnsignedOfAppended(data[offset..offset + index], data[offset + index]);
      assert data[offset..offset + index] + [data[offset + index]] == data[offset..offset + index + 1];
      raw := raw + place * data[offset + index];
      place := 256 * place;
      index := index + 1;
    }
    LittleEndianInvertsUnsigned(data[offset..offset + width]);
    return Some(raw);
  }
}
