/**
 * TFRecordCodec.read as written over a channel that returns fewer bytes than fit and remain.
 *
 * `read` issues one channel read for the header and one for the data and compares each
 * count with the full size (TFRecordIO.java:859-874). `ReadableByteChannel.read` only
 * promises at least one byte per call, so over a channel that hands over at most `chunk`
 * bytes per call a frame the writer produced fails although every byte of it is there.
 * The corrected read is Channels.ReadFully, which keeps reading until the buffer is full
 * or the stream ends and so returns what Channels.ByteSource.Read returns.
 */
module ShortReads {
  import opened LittleEndian
  import opened TFRecordFormat
  import opened FrameProperties
  import opened Sequences

  /** `read` up to the data check, as written, when each channel read yields at most `chunk` bytes. */
  function ReadPrefixChunked(input: seq<bv8>, chunk: nat): (r: Prefix)
    requires chunk >= 1
    ensures r.consumed <= |input|
    ensures r.Payload? ==> r.consumed == HeaderLen + |r.data| && input[HeaderLen..r.consumed] == r.data
    ensures r.Stopped? ==> !r.outcome.Record?
  {
    var headerCount := ChunkCount(input, HeaderLen, chunk);
    if headerCount <= 0 then Stopped(EndOfStream, 0)
    else if headerCount != HeaderLen then Stopped(Failed(ShortHeader), headerCount)
    else
      var length := DecodeLE64(input[..8]);
      if HashLong(length) != DecodeLE32(input[8..HeaderLen]) then Stopped(Failed(LengthMaskMismatch), HeaderLen)
      else
        var capacity := IntCast(length);
        if capacity < 0 then Stopped(Failed(NegativeCapacity), HeaderLen)
        else
          var afterHeader := input[HeaderLen..];
          var dataCount := ChunkCount(afterHeader, capacity, chunk);
          MinusOneIsNoCapacity(length);
          if dataCount != SignedLong(length) then
            Stopped(Failed(InvalidData), HeaderLen + (if dataCount < 0 then 0 else dataCount))
          else
            Payload(afterHeader[..dataCount], HeaderLen + dataCount)
  }

  /** A channel whose every read hands over the whole stream's worth behaves like the modelled one. */
  lemma ChunkedReadAgrees(input: seq<bv8>, chunk: nat)
    requires chunk >= 1 && chunk >= |input|
    ensures ReadPrefixChunked(input, chunk) == ReadPrefix(input)
  {
  }

  /**
   * A written frame, followed by anything, fails over a channel that yields fewer than 12
   * bytes per call ("Fewer than 12 bytes") or fewer than the payload's length ("Invalid data").
   */
  lemma ChunkedReadRejectsWrittenFrame(data: seq<bv8>, rest: seq<bv8>, chunk: nat)
    requires |data| < ArrayLimit && chunk >= 1
    requires chunk < HeaderLen || chunk < |data|
    ensures ReadPrefixChunked(EncodeFrame(data) + rest, chunk) ==
      if chunk < HeaderLen then Stopped(Failed(ShortHeader), chunk)
      else Stopped(Failed(InvalidData), HeaderLen + chunk)
  {
    var input := EncodeFrame(data) + rest;
    if chunk >= HeaderLen {
      TakeOfTake(input, HeaderLen, |EncodeFrame(data)|);
      TakeAppended(EncodeFrame(data), rest);
      assert input[..HeaderLen] == Header(|data|);
      HeaderDecodes(|data|, input);
    }
  }
}
