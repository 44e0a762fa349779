/** Unsigned LEB128 (DWARF Version 5, section 7.6): seven payload bits a byte, the high bit says that more follow. */
module Uleb128 {
  import opened Words

  const MAX_BYTES: nat := 10

  /** The minimal encoding of a value. */
  function Encode(value: nat): (s: seq<byte>)
    ensures |s| >= 1
  {
    if value < 128 then [value] else [128 + value % 128] + Encode(value / 128)
  }

  /** The payload bits of a byte string, least significant group first. */
  function Payload(s: seq<byte>): nat {
    if s == [] then 0 else s[0] % 128 + 128 * Payload(s[1..])
  }

  function Place(n: nat): (p: nat)
    ensures p > 0
  {
    if n == 0 then 1 else 128 * Place(n - 1)
  }

  /** Exactly one final byte, at the end, and no superfluous zero group. */
  predicate Canonical(s: seq<byte>) {
    && |s| >= 1
    && s[|s| - 1] < 128
    && (forall i :: 0 <= i < |s| - 1 ==> s[i] >= 128)
    && (|s| == 1 || s[|s| - 1] != 0)
  }

  lemma {:induction false} EncodeIsCanonical(value: nat)
    ensures Canonical(Encode(value)) && Payload(Encode(value)) == value
    ensures value > 0 ==> Encode(value)[|Encode(value)| - 1] != 0
  {
    if value >= 128 {
      EncodeIsCanonical(value / 128);
      assert Encode(value)[1..] == Encode(value / 128);
    } else {
      assert Encode(value)[1..] == [];
    }
  }

  lemma {:induction false} CanonicalIsEncode(s: seq<byte>)
    requires Canonical(s)
    ensures Encode(Payload(s)) == s
    ensures |s| > 1 ==> Payload(s) >= 128
  {
    if |s| > 1 {
      var rest := s[1..];
      assert rest[|rest| - 1] == s[|s| - 1];
      CanonicalIsEncode(rest);
      if |rest| == 1 {
        assert rest[1..] == [];
      }
      assert Payload(rest) > 0;
      assert Payload(s) % 128 == s[0] % 128 && Payload(s) / 128 == Payload(rest);
    } else {
      assert s[1..] == [];
    }
  }

  lemma {:induction false} EncodeLength(value: nat, n: nat)
    requires n >= 1 && value < Place(n)
    ensures |Encode(value)| <= n
  {
    if value >= 128 {
      assert n > 1;
      EncodeLength(value / 128, n - 1);
    }
  }

  lemma {:induction false} PayloadOfAppended(s: seq<byte>, b: byte)
    ensures Payload(s + [b]) == Payload(s) + Place(|s|) * (b % 128)
  {
    if s == [] {
      assert (s + [b])[1..] == [];
    } else {
      PayloadOfAppended(s[1..], b);
      assert (s + [b])[1..] == s[1..] + [b];
      assert 128 * (Place(|s| - 1) * (b % 128)) == Place(|s|) * (b % 128);
    }
  }

  lemma {:induction false} PayloadBound(s: seq<byte>)
    ensures Payload(s) < Place(|s|)
  {
    if s != [] {
      PayloadBound(s[1..]);
    }
  }

  lemma {:induction false} PayloadOfPrefix(s: seq<byte>, n: nat)
    requires n <= |s|
    ensures Payload(s[..n]) <= Payload(s)
  {
    if n > 0 {
      PayloadOfPrefix(s[1..], n - 1);
      assert s[..n][1..] == s[1..][..n - 1];
    }
  }

  lemma PlacesOf64Bits()
    ensures Place(9) == 0x8000_0000_0000_0000
    ensures Place(10) == 128 * Place(9)
  {
    assert Place(1) == 128 * Place(0);
    assert Place(2) == 128 * Place(1);
    assert Place(3) == 128 * Place(2);
    assert Place(4) == 128 * Place(3);
    assert Place(5) == 128 * Place(4);
    assert Place(6) == 128 * Place(5);
    assert Place(7) == 128 * Place(6);
    assert Place(8) == 128 * Place(7);
  }

  /** How many bytes values of the usual widths take. */
  lemma EncodedSize(value: nat)
    ensures value <= U16_MAX ==> |Encode(value)| <= 3
    ensures value < 0x100_0000 ==> |Encode(value)| <= 4
    ensures value <= U32_MAX ==> |Encode(value)| <= 5
    ensures value <= U64_MAX ==> |Encode(value)| <= 10
  {
    PlacesOf64Bits();
    assert Place(3) == 0x20_0000 && Place(4) == 0x1000_0000 && Place(5) == 0x8_0000_0000 by {
      assert Place(1) == 128 * Place(0);
      assert Place(2) == 128 * Place(1);
    }
    if value <= U16_MAX {
      EncodeLength(value, 3);
    }
    if value < 0x100_0000 {
      EncodeLength(value, 4);
    }
    if value <= U32_MAX {
      EncodeLength(value, 5);
    }
    if value <= U64_MAX {
      EncodeLength(value, 10);
    }
  }

  /** The minimal encoding of a 64-bit value starts at the offset. */
  predicate StoredAt(data: seq<byte>, offset: nat, value: nat) {
    value <= U64_MAX && Holds(data, offset, Encode(value))
  }

  /** What a reader at an offset must return: the one value stored there and the offset after it, or nothing. */
  ghost function At(data: seq<byte>, offset: nat): (r: Option<(nat, nat)>)
    ensures r.Some? ==> StoredAt(data, offset, r.value.0) && r.value.1 == offset + |Encode(r.value.0)| <= |data|
    ensures r.None? ==> forall v :: !StoredAt(data, offset, v)
  {
    if exists v :: StoredAt(data, offset, v) then
      var v :| StoredAt(data, offset, v);
      Some((v, offset + |Encode(v)|))
    else None
  }

  lemma CanonicalIsPrefixFree(s: seq<byte>, t: seq<byte>, data: seq<byte>)
    requires Canonical(s) && Canonical(t) && s <= data && t <= data
    ensures s == t
  {
    assert s[|s| - 1] == data[|s| - 1] && t[|t| - 1] == data[|t| - 1];
  }

  /** No encoding is a proper prefix of another, so at most one value is stored at an offset. */
  lemma StoredValueIsUnique(data: seq<byte>, offset: nat, v: nat, w: nat)
    requires StoredAt(data, offset, v) && StoredAt(data, offset, w)
    ensures v == w
  {
    EncodeIsCanonical(v);
    EncodeIsCanonical(w);
    CanonicalIsPrefixFree(Encode(v), Encode(w), data[offset..]);
  }

  /** The reader inverts the writer, whatever follows. */
  lemma ReaderInvertsWriter(prefix: seq<byte>, value: nat, suffix: seq<byte>)
    requires value <= U64_MAX
    ensures At(prefix + Encode(value) + suffix, |prefix|) == Some((value, |prefix| + |Encode(value)|))
  {
    var data := prefix + Encode(value) + suffix;
    assert StoredAt(data, |prefix|, value);
    StoredIsRead(data, |prefix|, value);
  }

  lemma StoredIsRead(data: seq<byte>, offset: nat, value: nat)
    requires StoredAt(data, offset, value)
    ensures At(data, offset) == Some((value, offset + |Encode(value)|))
  {
    StoredValueIsUnique(data, offset, value, At(data, offset).value.0);
  }

  /** The number of bytes the minimal encoding takes. */
  method Length(value: nat) returns (length: nat)
    ensures length == |Encode(value)|
  {
    length := 1;
    var rest: nat := value / 128;
    while rest != 0
      invariant |Encode(value)| == if rest == 0 then length else length + |Encode(rest)|
    {
      length := length + 1;
      rest := rest / 128;
    }
  }

  /** k bytes from the offset on are all continuation bytes. */
  predicate Continues(data: seq<byte>, offset: nat, k: nat) {
    && offset + k <= |data|
    && forall i :: offset <= i < offset + k ==> data[i] >= 128
  }

  /** Every value stored at the offset runs on past the continuation bytes. */
  lemma ContinuesPast(data: seq<byte>, offset: nat, k: nat, value: nat)
    requires Continues(data, offset, k) && StoredAt(data, offset, value)
    ensures |Encode(value)| > k
    ensures Payload(data[offset..offset + k]) <= value
  {
    EncodeIsCanonical(value);
    var n := |Encode(value)|;
    assert data[offset + n - 1] == Encode(value)[n - 1];
    PayloadOfPrefix(Encode(value), k);
    assert Encode(value)[..k] == data[offset..offset + k];
  }

  lemma TruncatedIsRejected(data: seq<byte>, offset: nat, k: nat)
    requires (Continues(data, offset, k) && offset + k >= |data|) || offset > |data|
    ensures At(data, offset) == None
  {
    if v :| StoredAt(data, offset, v) {
      ContinuesPast(data, offset, k, v);
    }
  }

  lemma OverlongIsRejected(data: seq<byte>, offset: nat)
    requires Continues(data, offset, 10)
    ensures At(data, offset) == None
  {
    if v :| StoredAt(data, offset, v) {
      ContinuesPast(data, offset, 10, v);
      PlacesOf64Bits();
      EncodeLength(v, 10);
    }
  }

  lemma OverflowIsRejected(data: seq<byte>, offset: nat)
    requires Continues(data, offset, 9) && offset + 9 < |data| && data[offset + 9] % 128 > 1
    ensures At(data, offset) == None
  {
    if v :| StoredAt(data, offset, v) {
      ContinuesPast(data, offset, 9, v);
      assert |Encode(v)| >= 10;
      EncodeIsCanonical(v);
      assert Encode(v)[9] == data[offset + 9];
      var bytes := data[offset..offset + 9];
      assert Encode(v)[..10] == bytes + [data[offset + 9]];
      PlacesOf64Bits();
      PayloadOfPrefix(Encode(v), 10);
      PayloadOfAppended(bytes, data[offset + 9]);
    }
  }

  /** At the first final byte the value is accepted exactly when it needs all the bytes read. */
  lemma FinalByteDecides(data: seq<byte>, offset: nat, k: nat)
    requires Continues(data, offset, k) && offset + k < |data| && data[offset + k] < 128
    requires k < 9 || (k == 9 && data[offset + k] <= 1)
    ensures
      var value := Payload(data[offset..offset + k + 1]);
      At(data, offset) == if |Encode(value)| == k + 1 then Some((value, offset + k + 1)) else None
  {
    var bytes := data[offset..offset + k + 1];
    var value := Payload(bytes);
    assert bytes == data[offset..offset + k] + [data[offset + k]];
    PayloadOfAppended(data[offset..offset + k], data[offset + k]);
    ReadFits(data[offset..offset + k], data[offset + k], k);
    if |Encode(value)| == k + 1 {
      if k > 0 && data[offset + k] == 0 {
        PayloadBound(data[offset..offset + k]);
        EncodeLength(value, k);
      }
      CanonicalIsEncode(bytes);
      assert StoredAt(data, offset, value);
      StoredIsRead(data, offset, value);
    } else if v :| StoredAt(data, offset, v) {
      FinalByteIsLast(data, offset, k, v);
    }
  }

  lemma FinalByteIsLast(data: seq<byte>, offset: nat, k: nat, v: nat)
    requires Continues(data, offset, k) && offset + k < |data| && data[offset + k] < 128
    requires StoredAt(data, offset, v)
    ensures data[offset..offset + k + 1] == Encode(v)
    ensures Payload(data[offset..offset + k + 1]) == v
  {
    ContinuesPast(data, offset, k, v);
    EncodeIsCanonical(v);
    assert Encode(v)[k] == data[offset + k];
  }

  lemma ReadFits(s: seq<byte>, payload: nat, k: nat)
    requires |s| == k <= 9 && payload < 128
    requires k == 9 ==> payload <= 1
    ensures Payload(s) + Place(k) * payload <= U64_MAX
  {
    PayloadBound(s);
    PlacesOf64Bits();
    if k < 9 {
      PlaceGrows(k, 8);
      assert Place(9) == 128 * Place(8);
      assert Place(k) * payload <= Place(k) * 127;
    }
  }

  lemma {:induction false} PlaceGrows(n: nat, m: nat)
    requires n <= m
    ensures Place(n) <= Place(m)
  {
    if n < m {
      PlaceGrows(n, m - 1);
    }
  }

  /** Reads one value; accepts exactly the minimal encodings of 64-bit values. */
  method Read(data: seq<byte>, offset: nat) returns (r: Option<(nat, nat)>)
    ensures r == At(data, offset)
  {
    hide At;
    hide Encode;
    var value: nat, place: nat, next := 0, 1, offset;
    for index := 0 to MAX_BYTES
      invariant next == offset + index
      invariant place == Place(index)
      invariant index > 0 || offset <= |data| ==> Continues(data, offset, index) && value == Payload(data[offset..next])
      invariant index == 0 ==> value == 0
    {
      if next >= |data| {
        TruncatedIsRejected(data, offset, index);
        return None;
      }
      var b := data[next];
      var payload := b % 128;
      if index == 9 && payload > 1 {
        OverflowIsRejected(data, offset);
        return None;
      }
      PayloadOfAppended(data[offset..next], b);
      assert data[offset..next] + [b] == data[offset..next + 1];
      value := value + place * payload;
      next := next + 1;
      if b < 128 {
        FinalByteDecides(data, offset, index);
        var length := Length(value);
        return if length == next - offset then Some((value, next)) else None;
      }
      place := 128 * place;
    }
    OverlongIsRejected(data, offset);
    return None;
  }
}
