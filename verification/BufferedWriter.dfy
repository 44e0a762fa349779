/** A file writer with a fixed buffer that tracks the logical offset of the next byte. */
module BufferedWriter {
  import opened Words
  import Uleb128

  const BUFFER_SIZE: nat := 0x1_0000

  class BufferedFileWriter {
    var stream: seq<byte>  // what the wrapped stream has received
    var buffer: seq<byte>
    var offset: nat

    ghost predicate Valid()
      reads this
    {
      |buffer| <= BUFFER_SIZE && offset == |stream| + |buffer|
    }

    /** Every byte written so far, buffered or not. */
    ghost function Contents(): seq<byte>
      reads this
    {
      stream + buffer
    }

    constructor ()
      ensures Valid() && Contents() == []
    {
      stream, buffer, offset := [], [], 0;
    }

    method Flush()
      requires Valid()
      modifies this
      ensures Valid() && Contents() == old(Contents()) && buffer == [] && offset == old(offset)
    {
      stream := stream + buffer;
      buffer := [];
    }

    method PutByte(value: byte)
      requires Valid()
      modifies this
      ensures Valid() && Contents() == old(Contents()) + [value]
    {
      if |buffer| == BUFFER_SIZE {
        Flush();
      }
      assert Contents() == old(Contents());
      buffer := buffer + [value];
      offset := offset + 1;
    }

    method WriteBytes(bytes: seq<byte>)
      requires Valid()
      modifies this
      ensures Valid() && Contents() == old(Contents()) + bytes
    {
      for k := 0 to |bytes|
        invariant Valid() && Contents() == old(Contents()) + bytes[..k]
      {
        assert bytes[..k + 1] == bytes[..k] + [bytes[k]];
        PutByte(bytes[k]);
      }
      assert bytes[..|bytes|] == bytes;
    }

    /** write_fixed: the low `width` bytes, least significant first. */
    method WriteFixed(value: nat, width: nat)
      requires Valid()
      modifies this
      ensures Valid() && Contents() == old(Contents()) + LittleEndian(value, width)
    {
      var raw := value;
      for index := 0 to width
        invariant Valid()
        invariant Contents() + LittleEndian(raw, width - index) == old(Contents()) + LittleEndian(value, width)
      {
        ghost var before, rest := Contents(), LittleEndian(raw / 256, width - index - 1);
        PutByte(raw % 256);
        assert Contents() + rest == before + ([raw % 256] + rest);
        raw := raw / 256;
      }
      assert Contents() + [] == Contents();
    }

    method WriteUleb128(value: nat)
      requires Valid()
      modifies this
      ensures Valid() && Contents() == old(Contents()) + Uleb128.Encode(value)
    {
      var rest := value;
      while rest >= 128
        invariant Valid()
        invariant Contents() + Uleb128.Encode(rest) == old(Contents()) + Uleb128.Encode(value)
      {
        ghost var before, more := Contents(), Uleb128.Encode(rest / 128);
        PutByte(128 + rest % 128);
        assert Contents() + more == before + ([128 + rest % 128] + more);
        rest := rest / 128;
      }
      PutByte(rest);
    }

    /** Copies a whole file behind what was written, past the buffer. */
    method CopyThrough(bytes: seq<byte>)
      requires Valid() && buffer == []
      modifies this
      ensures Valid() && Contents() == old(Contents()) + bytes && buffer == []
    {
      stream := stream + bytes;
      offset := offset + |bytes|;
    }
  }
}
