/** Writing one compressed directory block, in persisted field order. */
module DirectoryWriter {
  import opened Words
  import opened Bitmaps
  import opened PostingBlock
  import opened DirectoryBlock
  import opened BufferedWriter
  import Uleb128

  /** The bitmap of a bit list, built bit by bit from zero. */
  method BuildBitmap(bits: seq<bool>) returns (bitmap: array<byte>)
    ensures fresh(bitmap) && bitmap[..] == Bitmap(bits)
  {
    hide Bits, Bitmap, PaddingIsZero;
    bitmap := new byte[Bytes(|bits|)](_ => 0);
    ZeroBits(bitmap[..], |bits|);
    for index := 0 to |bits|
      invariant PaddingIsZero(bitmap[..], |bits|)
      invariant Bits(bitmap[..], |bits|) == bits[..index] + seq(|bits| - index, _ => false)
    {
      if bits[index] {
        SetBit(bitmap, index, |bits|);
      }
      assert bits[..index + 1] == bits[..index] + [bits[index]];
    }
    assert bits[..|bits|] + [] == bits;
    BitmapOfBits(bitmap[..], |bits|);
  }

  method WriteBytes(spool: BufferedFileWriter, bytes: array<byte>)
    requires spool.Valid()
    modifies spool
    ensures spool.Valid() && spool.Contents() == old(spool.Contents()) + bytes[..]
  {
    for index := 0 to bytes.Length
      invariant spool.Valid() && spool.Contents() == old(spool.Contents()) + bytes[..index]
    {
      spool.PutByte(bytes[index]);
      assert bytes[..index + 1] == bytes[..index] + [bytes[index]];
    }
    assert bytes[..bytes.Length] == bytes[..];
  }

  lemma {:induction false} HashDeltaAt(es: seq<Entry>, i: nat)
    requires i + 1 < |es|
    ensures HashDeltas(es)[i] == Delta(es[i + 1].hash, es[i].hash)
  {
    if i > 0 {
      HashDeltaAt(es[1..], i - 1);
    }
  }

  method ComputeDeltas(es: seq<Entry>) returns (deltas: seq<nat>)
    requires es != [] && forall i :: 0 <= i < |es| - 1 ==> es[i].hash < es[i + 1].hash
    ensures deltas == HashDeltas(es)
  {
    deltas := [];
    for index := 1 to |es|
      invariant |deltas| == index - 1
      invariant forall i :: 0 <= i < index - 1 ==> deltas[i] == HashDeltas(es)[i]
    {
      HashDeltaAt(es, index - 1);
      deltas := deltas + [es[index].hash - es[index - 1].hash];
    }
  }

  method WriteLows(spool: BufferedFileWriter, deltas: seq<nat>)
    requires spool.Valid()
    modifies spool
    ensures spool.Valid() && spool.Contents() == old(spool.Contents()) + EncodeLows(deltas)
  {
    hide LittleEndian, BufferedFileWriter.Contents, BufferedFileWriter.Valid;
    for index := 0 to |deltas|
      invariant spool.Valid()
      invariant spool.Contents() + EncodeLows(deltas[index..]) == old(spool.Contents()) + EncodeLows(deltas)
    {
      ghost var before, low, rest := spool.Contents(), LittleEndian(deltas[index], LOW_BYTES), EncodeLows(deltas[index + 1..]);
      assert deltas[index..][1..] == deltas[index + 1..];
      spool.WriteFixed(deltas[index], LOW_BYTES);
      assert before + low + rest == before + (low + rest);
    }
    assert spool.Contents() + [] == spool.Contents();
  }

  method WriteHighs(spool: BufferedFileWriter, deltas: seq<nat>)
    requires spool.Valid()
    modifies spool
    ensures spool.Valid() && spool.Contents() == old(spool.Contents()) + EncodeHighs(deltas)
  {
    hide Uleb128.Encode, BufferedFileWriter.Contents, BufferedFileWriter.Valid;
    for index := 0 to |deltas|
      invariant spool.Valid()
      invariant spool.Contents() + EncodeHighs(deltas[index..]) == old(spool.Contents()) + EncodeHighs(deltas)
    {
      ghost var before, rest := spool.Contents(), EncodeHighs(deltas[index + 1..]);
      ghost var high := if deltas[index] / LOW_RANGE != 0 then Uleb128.Encode(deltas[index] / LOW_RANGE) else [];
      assert deltas[index..][1..] == deltas[index + 1..];
      if deltas[index] / LOW_RANGE != 0 {
        spool.WriteUleb128(deltas[index] / LOW_RANGE);
      } else {
        assert before + high == before;
      }
      assert before + high + rest == before + (high + rest);
    }
    assert spool.Contents() + [] == spool.Contents();
  }

  method WriteFields(spool: BufferedFileWriter, e: Entry)
    requires spool.Valid()
    modifies spool
    ensures spool.Valid() && spool.Contents() == old(spool.Contents()) + EncodeFields(e)
  {
    hide Uleb128.Encode, BufferedFileWriter.Contents, BufferedFileWriter.Valid;
    spool.WriteUleb128(e.length);
    spool.WriteUleb128(e.games);
    ghost var count := if e.occurrences != e.games then Uleb128.Encode(e.occurrences) else [];
    ghost var before := spool.Contents();
    if e.occurrences != e.games {
      spool.WriteUleb128(e.occurrences);
    } else {
      assert before + count == before;
    }
    spool.WriteUleb128(e.minPly);
    spool.WriteUleb128(e.maxPly);
    assert spool.Contents() == old(spool.Contents()) + (Uleb128.Encode(e.length) + Uleb128.Encode(e.games) + count
                                                        + Uleb128.Encode(e.minPly) + Uleb128.Encode(e.maxPly));
  }

  method WriteEntries(spool: BufferedFileWriter, es: seq<Entry>)
    requires spool.Valid()
    modifies spool
    ensures spool.Valid() && spool.Contents() == old(spool.Contents()) + EncodeEntries(es)
  {
    hide EncodeFields, BufferedFileWriter.Contents, BufferedFileWriter.Valid;
    for index := 0 to |es|
      invariant spool.Valid()
      invariant spool.Contents() + EncodeEntries(es[index..]) == old(spool.Contents()) + EncodeEntries(es)
    {
      ghost var before, fields, rest := spool.Contents(), EncodeFields(es[index]), EncodeEntries(es[index + 1..]);
      assert es[index..][1..] == es[index + 1..];
      WriteFields(spool, es[index]);
      assert before + fields + rest == before + (fields + rest);
    }
    assert spool.Contents() + [] == spool.Contents();
  }

  /** The body of flush_directory_block for a non-empty list of pending entries. */
  method WriteBlock(spool: BufferedFileWriter, es: seq<Entry>)
    requires spool.Valid() && es != []
    requires forall i :: 0 <= i < |es| - 1 ==> es[i].hash < es[i + 1].hash
    modifies spool
    ensures spool.Valid() && spool.Contents() == old(spool.Contents()) + Encode(es)
  {
    hide LittleEndian, Bitmap, HashBits, CountBits, EncodeLows, EncodeHighs, EncodeEntries;
    hide BufferedFileWriter.Contents, BufferedFileWriter.Valid;
    var deltas := ComputeDeltas(es);
    hide HashDeltas;
    var hashBitmap := BuildBitmap(HashBits(deltas));
    var countBitmap := BuildBitmap(CountBits(es));
    ghost var start := spool.Contents();
    WriteHeader(spool, es[0], |es|);
    WriteBytes(spool, hashBitmap);
    WriteBytes(spool, countBitmap);
    WriteLows(spool, deltas);
    WriteHighs(spool, deltas);
    WriteEntries(spool, es);
    PartsConcat(start, EncodeHeader(es[0], |es|), Bitmap(HashBits(deltas)), Bitmap(CountBits(es)), EncodeLows(deltas),
                EncodeHighs(deltas), EncodeEntries(es));
  }

  method WriteHeader(spool: BufferedFileWriter, first: Entry, count: nat)
    requires spool.Valid()
    modifies spool
    ensures spool.Valid() && spool.Contents() == old(spool.Contents()) + EncodeHeader(first, count)
  {
    hide LittleEndian, BufferedFileWriter.Contents, BufferedFileWriter.Valid;
    spool.WriteFixed(first.hash, 8);
    spool.WriteFixed(first.offset, 8);
    spool.WriteFixed(count, 2);
    assert spool.Contents() == old(spool.Contents()) + EncodeHeader(first, count);
  }

  lemma PartsConcat(start: seq<byte>, a: seq<byte>, b: seq<byte>, c: seq<byte>, d: seq<byte>, e: seq<byte>, f: seq<byte>)
    ensures start + a + b + c + d + e + f == start + (a + b + c + d + e + f)
  {
  }
}
