/**
 * What TFRecordCodec promises, stated over the pure frame functions of TFRecordFormat:
 * the mask is a bijection, frames have the announced size, reading a written frame gives
 * the record back, end of stream and each failure happen exactly when they should, and a
 * returned record always carried matching checksums.
 */
module FrameProperties {
  import opened LittleEndian
  import opened TFRecordFormat
  import opened Sequences

  // ---------------------------------------------------------------------------
  // The mask

  /** `mask` is a 32-bit rotation right by 15 bits followed by a wrapping add. */
  lemma MaskIsRotateThenAdd(crc: bv32)
    ensures Mask(crc) == crc.RotateRight(15) + MaskDelta
  {
  }

  /** Unmask undoes Mask and Mask undoes Unmask: the mask is a bijection on 32-bit words. */
  lemma MaskBijection(crc: bv32, masked: bv32)
    ensures Unmask(Mask(crc)) == crc
    ensures Mask(Unmask(masked)) == masked
    ensures Mask(crc) == masked <==> crc == Unmask(masked)
  {
    MaskIsRotateThenAdd(crc);
    MaskIsRotateThenAdd(Unmask(masked));
    RotationsCancel(crc, masked - MaskDelta);
  }

  /** Rotating right by 15 and left by 15 cancel, in either order. */
  lemma RotationsCancel(x: bv32, y: bv32)
    ensures x.RotateRight(15).RotateLeft(15) == x
    ensures y.RotateLeft(15).RotateRight(15) == y
  {
  }

  // ---------------------------------------------------------------------------
  // Frame sizes

  /** `recordLength` is the exact sum 12 + |data| + 4 wrapped to a Java `int`. */
  lemma RecordLengthWraps(data: seq<bv8>)
    requires |data| < ArrayLimit
    ensures RecordLength(data) == WrapInt32(FrameSize(data))
  {
  }

  /** Below 2^31 - 16 bytes, `recordLength` is the exact frame size 12 + |data| + 4. */
  lemma RecordLengthIsFrameSize(data: seq<bv8>)
    requires |data| <= ArrayLimit - HeaderLen - FooterLen - 1
    ensures RecordLength(data) == FrameSize(data) == 16 + |data|
  {
  }

  /** From 2^31 - 16 bytes on, `recordLength` overflows Java's `int` and comes out negative. */
  lemma RecordLengthOverflows(data: seq<bv8>)
    requires ArrayLimit - HeaderLen - FooterLen <= |data| < ArrayLimit
    ensures RecordLength(data) == FrameSize(data) - 0x1_0000_0000
    ensures RecordLength(data) < 0
  {
  }

  /** `write` emits exactly FrameSize(data) bytes, laid out as header, payload, footer. */
  lemma EncodeFrameLayout(data: seq<bv8>)
    requires |data| < ArrayLimit
    ensures |EncodeFrame(data)| == FrameSize(data)
    ensures EncodeFrame(data)[..8] == LE64(|data|)
    ensures DecodeLE32(EncodeFrame(data)[8..HeaderLen]) == HashLong(|data|)
    ensures EncodeFrame(data)[HeaderLen..HeaderLen + |data|] == data
    ensures DecodeLE32(EncodeFrame(data)[HeaderLen + |data|..]) == HashBytes(data)
  {
    var frame := EncodeFrame(data);
    assert frame[..HeaderLen][..8] == frame[..8];
    assert frame[..HeaderLen][8..] == frame[8..HeaderLen];
    DecodeLE32OfLE32(HashLong(|data|));
    DecodeLE32OfLE32(HashBytes(data));
  }

  // ---------------------------------------------------------------------------
  // Reading a written frame

  /** The length field of a written header decodes to the payload size and passes its mask check. */
  lemma HeaderDecodes(n: nat, input: seq<bv8>)
    requires n < ArrayLimit
    requires |input| >= HeaderLen && input[..HeaderLen] == Header(n)
    ensures DecodeLE64(input[..8]) == n
    ensures HeaderChecks(input)
  {
    assert input[..8] == Header(n)[..8] == LE64(n);
    assert input[8..HeaderLen] == Header(n)[8..] == LE32(HashLong(n));
    DecodeLE64OfLE64(n);
    DecodeLE32OfLE32(HashLong(n));
  }

  /**
   * Once a header announcing `n` < 2^31 payload bytes has passed its mask check, the data
   * read yields the next `n` bytes if the stream holds them, and fails as invalid data otherwise.
   */
  lemma ReadDataOfLength(input: seq<bv8>, n: nat)
    requires |input| >= HeaderLen && n < ArrayLimit
    ensures ReadData(input, n) ==
      if |input| - HeaderLen >= n then Payload(input[HeaderLen..HeaderLen + n], HeaderLen + n)
      else Stopped(Failed(InvalidData), |input|)
  {
    assert IntCast(n) == n && SignedLong(n) == n;
    var afterHeader := input[HeaderLen..];
    if |afterHeader| >= n {
      assert ReadCount(afterHeader, n) == n;
      assert afterHeader[..n] == input[HeaderLen..HeaderLen + n];
    } else {
      assert ReadCount(afterHeader, n) < n;
    }
  }

  /** The header and data reads over a written header and its payload yield that payload. */
  lemma ReadPrefixOfFrame(data: seq<bv8>, rest: seq<bv8>)
    requires |data| < ArrayLimit
    ensures ReadPrefix(Header(|data|) + data + rest) == Payload(data, HeaderLen + |data|)
  {
    var input := Header(|data|) + data + rest;
    assert input[..HeaderLen] == Header(|data|);
    HeaderDecodes(|data|, input);
    ReadDataOfLength(input, |data|);
    assert input[HeaderLen..HeaderLen + |data|] == data;
  }

  /**
   * Round trip of one record: whatever follows it and whatever the footer buffer held,
   * reading a stream that begins with the frame written for `data` returns `data`, takes
   * exactly that frame from the channel and leaves the frame's footer in the buffer.
   */
  lemma ReadFrameRoundTrip(data: seq<bv8>, rest: seq<bv8>, footer: seq<bv8>)
    requires |data| < ArrayLimit && |footer| == FooterLen
    ensures ReadFrame(EncodeFrame(data) + rest, footer) == Step(Record(data), FrameSize(data), Footer(data))
  {
    AppendTwo(Header(|data|) + data, Footer(data), rest);
    ReadPrefixOfFrame(data, Footer(data) + rest);
    DropAppended(Header(|data|) + data, Footer(data) + rest);
    TakeAppended(Footer(data), rest);
    OverwriteAll(Footer(data) + rest, footer);
    DecodeLE32OfLE32(HashBytes(data));
  }

  /** Reading an exhausted stream ends at once, whatever the footer buffer holds. */
  lemma ReadAllEmpty(footer: seq<bv8>)
    requires |footer| == FooterLen
    ensures ReadAll([], footer) == Drain([], EndOfStream)
  {
    assert ReadPrefix([]) == Stopped(EndOfStream, 0);
  }

  /** One call of `read` that returns a record, followed by the calls on what it left. */
  lemma ReadAllStep(input: seq<bv8>, footer: seq<bv8>, data: seq<bv8>, consumed: nat, footer': seq<bv8>)
    requires |footer| == FooterLen && |footer'| == FooterLen
    requires ReadFrame(input, footer) == Step(Record(data), consumed, footer')
    ensures consumed <= |input|
    ensures ReadAll(input, footer) == Drain([data] + ReadAll(input[consumed..], footer').records, ReadAll(input[consumed..], footer').last)
  {
  }

  /** Reading a stream that begins with a written frame returns its record first, then reads on after the frame. */
  lemma ReadAllOfFrame(data: seq<bv8>, rest: seq<bv8>, footer: seq<bv8>)
    requires |data| < ArrayLimit && |footer| == FooterLen
    ensures var after := ReadAll(rest, Footer(data));
      ReadAll(EncodeFrame(data) + rest, footer) == Drain([data] + after.records, after.last)
  {
    ReadFrameRoundTrip(data, rest, footer);
    ReadAllStep(EncodeFrame(data) + rest, footer, data, FrameSize(data), Footer(data));
    DropAppended(EncodeFrame(data), rest);
  }

  /**
   * Round trip of a whole stream: reading back what was written for `records`, call after
   * call, yields exactly those records in order, then null (end of stream).
   */
  lemma {:induction false} ReadAllRoundTrip(records: seq<seq<bv8>>, footer: seq<bv8>)
    requires AllArrays(records) && |footer| == FooterLen
    ensures ReadAll(EncodeAll(records), footer) == Drain(records, EndOfStream)
    decreases |records|
  {
    if records == [] {
      ReadAllEmpty(footer);
    } else {
      var rest := EncodeAll(records[1..]);
      assert EncodeAll(records) == EncodeFrame(records[0]) + rest;
      ReadAllOfFrame(records[0], rest, footer);
      ReadAllRoundTrip(records[1..], Footer(records[0]));
      HeadTail(records);
    }
  }

  /** Writing one more record appends its frame to what was written before. */
  lemma {:induction false} EncodeAllAppend(records: seq<seq<bv8>>, data: seq<bv8>)
    requires AllArrays(records) && |data| < ArrayLimit
    ensures AllArrays(records + [data])
    ensures EncodeAll(records + [data]) == EncodeAll(records) + EncodeFrame(data)
    decreases |records|
  {
    if records == [] {
      assert records + [data] == [data];
    } else {
      TailOfAppend(records, data);
      EncodeAllAppend(records[1..], data);
      AppendTwo(EncodeFrame(records[0]), EncodeAll(records[1..]), EncodeFrame(data));
    }
  }

  /** The writer emits nothing exactly when it was given no record. */
  lemma EncodeAllEmpty(records: seq<seq<bv8>>)
    requires AllArrays(records)
    ensures EncodeAll(records) == [] <==> records == []
  {
    if records != [] {
      assert |EncodeAll(records)| >= FrameSize(records[0]);
    }
  }

  /**
   * Record offsets are prefix sums of frame sizes: as long as no `recordLength` overflows,
   * the offset reached after `records` is the number of bytes written for them.
   */
  lemma {:induction false} RecordsEndIsEncodedLength(records: seq<seq<bv8>>)
    requires AllArrays(records) && NoLengthOverflow(records)
    ensures RecordsEnd(records) == |EncodeAll(records)|
    decreases |records|
  {
    if records != [] {
      var init := records[..|records| - 1];
      var last := records[|records| - 1];
      InitLast(records);
      RecordsEndIsEncodedLength(init);
      EncodeAllAppend(init, last);
      RecordLengthIsFrameSize(last);
    }
  }

  /**
   * Corrected offsets: advanced by exact frame sizes, the offset after `records` is the
   * number of bytes written for them, for records of every size.
   */
  lemma {:induction false} FrameEndIsEncodedLength(records: seq<seq<bv8>>)
    requires AllArrays(records)
    ensures FrameEnd(records) == |EncodeAll(records)|
    decreases |records|
  {
    if records != [] {
      var init := records[..|records| - 1];
      var last := records[|records| - 1];
      InitLast(records);
      FrameEndIsEncodedLength(init);
      EncodeAllAppend(init, last);
    }
  }

  // ---------------------------------------------------------------------------
  // End of stream and failures

  /**
   * `read` returns null exactly when the header read yields no byte, i.e. on an exhausted
   * stream; 1 to 11 remaining bytes are a short-header failure, never an end of stream.
   */
  lemma EndOfStreamOnlyWhenEmpty(input: seq<bv8>, footer: seq<bv8>)
    requires |footer| == FooterLen
    ensures ReadFrame(input, footer).outcome == EndOfStream <==> input == []
    ensures ReadFrame(input, footer).outcome == Failed(ShortHeader) <==> 0 < |input| < HeaderLen
    ensures ReadFrame(input, footer).outcome == EndOfStream ==> ReadFrame(input, footer).consumed == 0
  {
  }

  /** A complete header whose stored mask differs from `hashLong(length)` fails the length check, and only such a header does. */
  lemma LengthMaskMismatchExactly(input: seq<bv8>, footer: seq<bv8>)
    requires |footer| == FooterLen
    ensures ReadFrame(input, footer).outcome == Failed(LengthMaskMismatch)
        <==> |input| >= HeaderLen && !HeaderChecks(input)
  {
  }

  /** A checked header announcing more payload bytes than the stream still holds fails: data is never short. */
  lemma TruncatedDataFails(input: seq<bv8>, footer: seq<bv8>)
    requires |footer| == FooterLen
    requires |input| >= HeaderLen && HeaderChecks(input)
    requires |input| - HeaderLen < DecodeLE64(input[..8])
    ensures ReadFrame(input, footer).outcome.Failed?
    ensures DecodeLE64(input[..8]) < ArrayLimit ==> ReadFrame(input, footer).outcome == Failed(InvalidData)
  {
    var u := DecodeLE64(input[..8]);
    if u < ArrayLimit {
      ReadDataOfLength(input, u);
    }
  }

  /** A length of 2^31 or more, however many bytes follow, is never read as a record. */
  lemma HugeLengthFails(input: seq<bv8>, footer: seq<bv8>)
    requires |footer| == FooterLen
    requires |input| >= HeaderLen && DecodeLE64(input[..8]) >= ArrayLimit
    ensures !ReadFrame(input, footer).outcome.Record?
  {
    var p := ReadPrefix(input);
    if p.Payload? {
      assert false;
    }
  }

  /**
   * Whenever the header and data reads yield a payload, the stream begins with the header
   * `write` emits for a payload of that size, followed by the payload.
   */
  lemma ReadPrefixSound(input: seq<bv8>)
    requires ReadPrefix(input).Payload?
    ensures var data := ReadPrefix(input).data;
      |data| < ArrayLimit && |input| >= HeaderLen + |data|
      && ReadPrefix(input).consumed == HeaderLen + |data|
      && input[..HeaderLen] == Header(|data|)
      && input[HeaderLen..HeaderLen + |data|] == data
  {
    var data := ReadPrefix(input).data;
    var u := DecodeLE64(input[..8]);
    assert ReadPrefix(input) == ReadData(input, u);
    assert SignedLong(u) == |data|;
    assert u == |data|;
    LE64OfDecodeLE64(input[..8]);
    assert LE32(DecodeLE32(input[8..HeaderLen])) == input[8..HeaderLen];
    assert input[..HeaderLen] == input[..8] + input[8..HeaderLen];
  }

  /**
   * Whenever `read` returns a record, the header it read announced that record's length
   * with the right mask, the payload bytes are the record, and the 4 bytes in the footer
   * buffer carry the record's mask: `read` never returns a payload after a length-mask
   * mismatch, short data or a data-mask mismatch.
   */
  lemma ReadFrameSound(input: seq<bv8>, footer: seq<bv8>)
    requires |footer| == FooterLen
    requires ReadFrame(input, footer).outcome.Record?
    ensures var r := ReadFrame(input, footer);
      var data := r.outcome.payload;
      |data| < ArrayLimit && |input| >= HeaderLen + |data|
      && input[..HeaderLen] == Header(|data|)
      && input[HeaderLen..HeaderLen + |data|] == data
      && r.footer == Footer(data)
  {
    var r := ReadFrame(input, footer);
    ReadPrefixSound(input);
    assert LE32(DecodeLE32(r.footer)) == r.footer;
  }

  /** With a complete frame in the stream, footer bytes other than the payload's mask fail the data check. */
  lemma DataMaskMismatchFails(data: seq<bv8>, stored: seq<bv8>, rest: seq<bv8>, footer: seq<bv8>)
    requires |data| < ArrayLimit && |stored| == FooterLen && |footer| == FooterLen
    requires stored != Footer(data)
    ensures ReadFrame(Header(|data|) + data + stored + rest, footer).outcome == Failed(DataMaskMismatch)
  {
    AppendTwo(Header(|data|) + data, stored, rest);
    ReadPrefixOfFrame(data, stored + rest);
    DropAppended(Header(|data|) + data, stored + rest);
    TakeAppended(stored, rest);
    OverwriteAll(stored + rest, footer);
    assert LE32(DecodeLE32(stored)) == stored;
  }
}
