/**
 * TFRecordCodec: the header and footer ByteBuffers it keeps and reuses across calls, and its
 * `read` and `write`, proved against the pure frame functions of TFRecordFormat.
 */
module TFRecordCodec {
  import opened LittleEndian
  import opened TFRecordFormat
  import opened Channels
  import opened Sequences

  /** `buffer.put(bytes)` at position `at`: overwrites `|bytes|` bytes there, nothing else. */
  method Put(buffer: array<bv8>, at: nat, bytes: seq<bv8>)
    requires at + |bytes| <= buffer.Length
    modifies buffer
    ensures buffer[..at] == old(buffer[..at])
    ensures buffer[at..at + |bytes|] == bytes
    ensures buffer[at + |bytes|..] == old(buffer[at + |bytes|..])
  {
    var i := 0;
    while i < |bytes|
      invariant 0 <= i <= |bytes|
      invariant buffer[..at] == old(buffer[..at])
      invariant buffer[at..at + i] == bytes[..i]
      invariant buffer[at + |bytes|..] == old(buffer[at + |bytes|..])
    {
      buffer[at + i] := bytes[i];
      i := i + 1;
    }
  }

  class Codec {
    /** The 12-byte header buffer, reused by every call. */
    const header: array<bv8>
    /** The 4-byte footer buffer, reused by every call. */
    const footer: array<bv8>

    ghost predicate Valid()
      reads this
    {
      header.Length == HeaderLen && footer.Length == FooterLen && header != footer
    }

    /** Both buffers are allocated zero-filled. */
    constructor ()
      ensures Valid() && fresh(header) && fresh(footer)
      ensures footer[..] == [0, 0, 0, 0]
    {
      header := new bv8[HeaderLen](_ => 0);
      footer := new bv8[FooterLen](_ => 0);
    }

    /**
     * The header and data reads of `read`: reads and checks the header, then reads the
     * payload into a fresh array. The result, the bytes taken from the channel and the
     * untouched footer buffer are those ReadPrefix gives for the unread bytes.
     */
    method ReadPrefixFrom(channel: ByteSource) returns (prefix: Prefix)
      requires Valid() && channel.Valid()
      modifies header, channel
      ensures Valid() && channel.Valid()
      ensures prefix == ReadPrefix(old(channel.Remaining()))
      ensures channel.pos == old(channel.pos) + prefix.consumed
    {
      ghost var input := channel.Remaining();
      var headerBytes := channel.Read(header);
      if headerBytes <= 0 {
        return Stopped(EndOfStream, 0);
      }
      if headerBytes != HeaderLen {
        return Stopped(Failed(ShortHeader), headerBytes);
      }
      assert header[..] == input[..HeaderLen];
      TakeOfTake(input, 8, HeaderLen);
      DropOfTake(input, 8, HeaderLen);
      assert header[..8] == input[..8] && header[8..] == input[8..HeaderLen];
      var length := DecodeLE64(header[..8]);
      var maskedCrc32OfLength := DecodeLE32(header[8..]);
      if HashLong(length) != maskedCrc32OfLength {
        return Stopped(Failed(LengthMaskMismatch), HeaderLen);
      }
      assert ReadPrefix(input) == ReadData(input, length);
      prefix := ReadDataFrom(channel, length, input);
    }

    /**
     * The data read of `read`, once the header announcing `length` has passed its mask
     * check and `input` was what the channel held before the header read: allocates
     * `(int) length` bytes and fills them from the channel, as ReadData gives.
     */
    method ReadDataFrom(channel: ByteSource, length: nat, ghost input: seq<bv8>) returns (prefix: Prefix)
      requires channel.Valid() && length < TwoTo64
      requires |input| >= HeaderLen && channel.Remaining() == input[HeaderLen..]
      modifies channel
      ensures channel.Valid()
      ensures prefix == ReadData(input, length)
      ensures channel.pos == old(channel.pos) + prefix.consumed - HeaderLen
    {
      var capacity := IntCast(length);
      if capacity < 0 {
        return Stopped(Failed(NegativeCapacity), HeaderLen);
      }
      var data := new bv8[capacity];
      ghost var afterHeader := channel.Remaining();
      var dataBytes := channel.Read(data);
      MinusOneIsNoCapacity(length);
      if dataBytes != SignedLong(length) {
        return Stopped(Failed(InvalidData), HeaderLen + (if dataBytes < 0 then 0 else dataBytes));
      }
      assert data[..] == afterHeader[..dataBytes];
      return Payload(data[..], HeaderLen + dataBytes);
    }

    /**
     * The footer read and data check of `read`, once `data` has been read: the bytes the
     * footer read yields overwrite the front of the footer buffer, and the whole buffer is
     * compared with the data's mask. Outcome, bytes taken and footer buffer are those
     * ReadFooter gives.
     */
    method ReadFooterFrom(channel: ByteSource, data: seq<bv8>) returns (out: Outcome)
      requires Valid() && channel.Valid()
      modifies footer, channel
      ensures Valid() && channel.Valid()
      ensures var step := ReadFooter(data, old(channel.Remaining()), old(footer[..]));
        out == step.outcome
        && channel.pos == old(channel.pos) + step.consumed
        && footer[..] == step.footer
    {
      ghost var afterData := channel.Remaining();
      ghost var stale := footer[..];
      // The count of the footer read is not looked at.
      var footerBytes := channel.Read(footer);
      ghost var got := if footerBytes < 0 then 0 else footerBytes;
      TakeDrop(footer[..], got);
      assert footer[..] == afterData[..got] + stale[got..];
      var maskedCrc32OfData := DecodeLE32(footer[..]);
      if HashBytes(data) != maskedCrc32OfData {
        out := Failed(DataMaskMismatch);
      } else {
        out := Record(data);
      }
    }

    /**
     * `read`: decodes the next frame from `channel`. The outcome, the bytes taken from the
     * channel and the footer buffer afterwards are those ReadFrame gives for the unread
     * bytes and the footer buffer's previous content.
     */
    method Read(channel: ByteSource) returns (out: Outcome)
      requires Valid() && channel.Valid()
      modifies header, footer, channel
      ensures Valid() && channel.Valid()
      ensures var step := ReadFrame(old(channel.Remaining()), old(footer[..]));
        out == step.outcome
        && channel.pos == old(channel.pos) + step.consumed
        && footer[..] == step.footer
    {
      ghost var input := channel.Remaining();
      var prefix := ReadPrefixFrom(channel);
      if prefix.Stopped? {
        return prefix.outcome;
      }
      DropOfDrop(channel.bytes, old(channel.pos), prefix.consumed);
      assert channel.Remaining() == input[prefix.consumed..];
      out := ReadFooterFrom(channel, prefix.data);
    }

    /**
     * `write`: appends to `channel` exactly the frame of `data` (header, payload, footer, in
     * three writes), and leaves that frame's header and footer in the buffers.
     */
    method Write(channel: ByteSink, data: seq<bv8>)
      requires Valid() && |data| < ArrayLimit
      modifies header, footer, channel
      ensures Valid()
      ensures channel.written == old(channel.written) + EncodeFrame(data)
      ensures header[..] == Header(|data|) && footer[..] == Footer(data)
    {
      ghost var before := channel.written;
      var maskedCrc32OfLength := HashLong(|data|);
      var maskedCrc32OfData := HashBytes(data);
      var lengthBytes := LE64(|data|);
      Put(header, 0, lengthBytes);
      Put(header, 8, LE32(maskedCrc32OfLength));
      TakeDrop(header[..], 8);
      assert header[..] == Header(|data|);
      channel.Write(header[..]);
      channel.Write(data);
      Put(footer, 0, LE32(maskedCrc32OfData));
      assert footer[..] == Footer(data);
      channel.Write(footer[..]);
      AppendThree(before, Header(|data|), data, Footer(data));
    }
  }
}
