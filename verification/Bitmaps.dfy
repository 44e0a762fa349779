/** Packed bit lists, least significant bit first, as the directory's exception bitmaps use them. */
module Bitmaps {
  import opened Words

  function Pow2(n: nat): (p: nat)
    ensures p > 0
  {
    if n == 0 then 1 else 2 * Pow2(n - 1)
  }

  function Bit(value: nat, i: nat): bool {
    if i == 0 then value % 2 == 1 else Bit(value / 2, i - 1)
  }

  function Pack(bits: seq<bool>): (value: nat)
    ensures value < Pow2(|bits|)
  {
    if bits == [] then 0 else (if bits[0] then 1 else 0) + 2 * Pack(bits[1..])
  }

  lemma PowersToByte(n: nat)
    requires n <= 8
    ensures Pow2(n) <= 256
  {
    assert Pow2(8) == 256 by {
      assert Pow2(4) == 16;
    }
    PowGrows(n, 8);
  }

  lemma {:induction false} PowGrows(n: nat, m: nat)
    requires n <= m
    ensures Pow2(n) <= Pow2(m)
  {
    if n < m {
      PowGrows(n, m - 1);
    }
  }

  function LowBits(value: nat, n: nat): (bits: seq<bool>)
    ensures |bits| == n
    ensures forall i :: 0 <= i < n ==> bits[i] == Bit(value, i)
  {
    if n == 0 then [] else [value % 2 == 1] + LowBits(value / 2, n - 1)
  }

  lemma {:induction false} PackedBits(value: nat, n: nat)
    requires value < Pow2(n)
    ensures Pack(LowBits(value, n)) == value
  {
    if n > 0 {
      PackedBits(value / 2, n - 1);
      assert LowBits(value, n)[1..] == LowBits(value / 2, n - 1);
    }
  }

  function Bytes(n: nat): nat {
    (n + 7) / 8
  }

  /** The bitmap of a bit list; the unused high bits of its last byte are zero. */
  function Bitmap(bits: seq<bool>): (s: seq<byte>)
    ensures |s| == Bytes(|bits|)
  {
    if |bits| <= 8 then
      PowersToByte(|bits|);
      if bits == [] then [] else [Pack(bits)]
    else
      PowersToByte(8);
      [Pack(bits[..8])] + Bitmap(bits[8..])
  }

  predicate TestBit(bitmap: seq<byte>, i: nat)
    requires i < 8 * |bitmap|
  {
    Bit(bitmap[i / 8], i % 8)
  }

  /** bitmap_padding_is_zero */
  predicate PaddingIsZero(bitmap: seq<byte>, usedBits: nat) {
    bitmap == [] || usedBits % 8 == 0 || bitmap[|bitmap| - 1] < Pow2(usedBits % 8)
  }

  function Bits(bitmap: seq<byte>, n: nat): (bits: seq<bool>)
    requires n <= 8 * |bitmap|
    ensures |bits| == n
  {
    seq(n, i requires 0 <= i < n => TestBit(bitmap, i))
  }

  lemma BitsOfBytes(b: byte, rest: seq<byte>, n: nat)
    requires n <= 8 * (1 + |rest|)
    ensures n <= 8 ==> Bits([b] + rest, n) == LowBits(b, n)
    ensures n > 8 ==> Bits([b] + rest, n) == LowBits(b, 8) + Bits(rest, n - 8)
  {
    if n > 8 {
      forall i | 8 <= i < n
        ensures TestBit([b] + rest, i) == TestBit(rest, i - 8)
      {
        assert i / 8 == (i - 8) / 8 + 1 && i % 8 == (i - 8) % 8;
      }
    }
  }

  lemma {:induction false} LowBitsOfPacked(bits: seq<bool>)
    ensures LowBits(Pack(bits), |bits|) == bits
  {
    if bits != [] {
      LowBitsOfPacked(bits[1..]);
      assert Pack(bits) / 2 == Pack(bits[1..]);
      assert bits == [bits[0]] + bits[1..];
    }
  }

  lemma {:induction false} BitsOfBitmap(bits: seq<bool>)
    ensures Bits(Bitmap(bits), |bits|) == bits
    ensures PaddingIsZero(Bitmap(bits), |bits|)
  {
    hide Bits, Pack, LowBits, TestBit;
    var bitmap := Bitmap(bits);
    if |bits| > 8 {
      BitsOfBitmap(bits[8..]);
      BitsOfBytes(bitmap[0], bitmap[1..], |bits|);
      LowBitsOfPacked(bits[..8]);
      assert bitmap == [bitmap[0]] + bitmap[1..];
      assert bits == bits[..8] + bits[8..];
    } else if bits != [] {
      BitsOfBytes(bitmap[0], [], |bits|);
      LowBitsOfPacked(bits);
      assert bitmap == [bitmap[0]] + [];
    } else {
      NoBits(bitmap);
    }
  }

  lemma NoBits(bitmap: seq<byte>)
    ensures Bits(bitmap, 0) == []
  {
  }

  /** A bitmap with zero padding is the bitmap of its bits. */
  lemma {:induction false} BitmapOfBits(bitmap: seq<byte>, n: nat)
    requires |bitmap| == Bytes(n) && PaddingIsZero(bitmap, n)
    ensures Bitmap(Bits(bitmap, n)) == bitmap
  {
    hide Bits, Pack, LowBits, TestBit;
    if n > 0 {
      assert bitmap == [bitmap[0]] + bitmap[1..];
      assert Pow2(8) == 256 by { assert Pow2(4) == 16; }
      BitsOfBytes(bitmap[0], bitmap[1..], n);
      PackedBits(bitmap[0], Min(n, 8));
      if n > 8 {
        BitmapOfBits(bitmap[1..], n - 8);
        assert Bits(bitmap, n)[..8] == LowBits(bitmap[0], 8);
        assert Bits(bitmap, n)[8..] == Bits(bitmap[1..], n - 8);
      }
    }
  }

  function WithBit(value: nat, i: nat): nat {
    if Bit(value, i) then value else value + Pow2(i)
  }

  lemma {:induction false} BitsOfWithBit(value: nat, i: nat, n: nat)
    requires i < n && value < Pow2(n)
    ensures WithBit(value, i) < Pow2(n)
    ensures forall j :: Bit(WithBit(value, i), j) == (j == i || Bit(value, j))
  {
    if i == 0 {
      forall j
        ensures Bit(WithBit(value, i), j) == (j == i || Bit(value, j))
      {
        if value % 2 == 0 {
          assert (value + 1) / 2 == value / 2;
        }
      }
    } else {
      BitsOfWithBit(value / 2, i - 1, n - 1);
      assert WithBit(value, i) / 2 == WithBit(value / 2, i - 1);
      assert WithBit(value, i) % 2 == value % 2;
    }
  }

  lemma {:induction false} BitsOfZero(i: nat)
    ensures !Bit(0, i)
  {
    if i > 0 {
      BitsOfZero(i - 1);
    }
  }

  lemma BitSet(bitmap: seq<byte>, i: nat, n: nat)
    requires i < n && |bitmap| == Bytes(n) && PaddingIsZero(bitmap, n)
    ensures WithBit(bitmap[i / 8], i % 8) < 256
    ensures
      var after := bitmap[i / 8 := WithBit(bitmap[i / 8], i % 8)];
      PaddingIsZero(after, n) && Bits(after, n) == Bits(bitmap, n)[i := true]
  {
    hide WithBit, Bit;
    assert Pow2(8) == 256 by { assert Pow2(4) == 16; }
    BitsOfWithBit(bitmap[i / 8], i % 8, 8);
    if i / 8 == |bitmap| - 1 && n % 8 != 0 {
      BitsOfWithBit(bitmap[i / 8], i % 8, n % 8);
    }
    var after := bitmap[i / 8 := WithBit(bitmap[i / 8], i % 8)];
    forall j | 0 <= j < n
      ensures TestBit(after, j) == (j == i || TestBit(bitmap, j))
    {
      assert j / 8 == i / 8 ==> (j % 8 == i % 8 <==> j == i);
    }
  }

  lemma ZeroBits(bitmap: seq<byte>, n: nat)
    requires |bitmap| == Bytes(n) && forall b <- bitmap :: b == 0
    ensures PaddingIsZero(bitmap, n) && Bits(bitmap, n) == seq(n, _ => false)
  {
    forall i | 0 <= i < n
      ensures !TestBit(bitmap, i)
    {
      assert bitmap[i / 8] in bitmap;
      BitsOfZero(i % 8);
    }
    assert bitmap != [] ==> bitmap[|bitmap| - 1] in bitmap;
  }

  /** Sets one bit of a bitmap under construction. */
  method SetBit(bitmap: array<byte>, i: nat, ghost n: nat)
    requires i < n && bitmap.Length == Bytes(n) && PaddingIsZero(bitmap[..], n)
    modifies bitmap
    ensures PaddingIsZero(bitmap[..], n)
    ensures Bits(bitmap[..], n) == old(Bits(bitmap[..], n))[i := true]
  {
    hide Bits, WithBit, PaddingIsZero;
    BitSet(bitmap[..], i, n);
    ghost var before := bitmap[..];
    bitmap[i / 8] := WithBit(bitmap[i / 8], i % 8);
    assert bitmap[..] == before[i / 8 := WithBit(before[i / 8], i % 8)];
  }
}
