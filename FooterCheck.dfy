/**
 * The footer read of TFRecordCodec.read ignores its byte count. When the stream ends
 * inside a footer, the bytes the read did not overwrite are those the previous call left
 * in the reused footer buffer, and they are checked as if they had been read.
 *
 * This module exhibits a truncated stream that `read` as written accepts record by record,
 * and proves that the corrected decoder ReadFrameChecked, which fails on a short footer,
 * returns a record only when the stream holds that record's complete frame, and otherwise
 * agrees with `read`.
 */
module FooterCheck {
  import opened LittleEndian
  import opened TFRecordFormat
  import opened FrameProperties
  import opened Sequences

  /** The footer buffer of a fresh codec: ByteBuffer.allocate zero-fills. */
  const FreshFooter: seq<bv8> := [0, 0, 0, 0]

  /** The first `FrameSize(data) - k` bytes of a written frame: it stops `k` bytes into its footer. */
  lemma TruncatedFrameLayout(data: seq<bv8>, k: nat)
    requires |data| < ArrayLimit && 1 <= k <= FooterLen
    ensures EncodeFrame(data)[..FrameSize(data) - k] == Header(|data|) + data + Footer(data)[..FooterLen - k]
  {
  }

  /**
   * As written: when the footer read finds only the first `FooterLen - k` bytes of a
   * record's footer and the buffer still holds that footer, the check passes.
   */
  lemma StaleFooterCompletesFooterRead(data: seq<bv8>, k: nat)
    requires |data| < ArrayLimit && 1 <= k <= FooterLen
    ensures ReadFooter(data, Footer(data)[..FooterLen - k], Footer(data)) == Step(Record(data), FooterLen - k, Footer(data))
  {
    PrefixThenRest(Footer(data), FooterLen - k);
    DecodeLE32OfLE32(HashBytes(data));
  }

  /**
   * As written: a frame cut off 1 to 4 bytes into its footer is read as a complete record
   * when the footer buffer still holds that record's footer from an earlier read.
   */
  lemma StaleFooterCompletesTruncatedFrame(data: seq<bv8>, k: nat)
    requires |data| < ArrayLimit && 1 <= k <= FooterLen
    ensures var cut := EncodeFrame(data)[..FrameSize(data) - k];
      ReadFrame(cut, Footer(data)) == Step(Record(data), |cut|, Footer(data))
  {
    var partial := Footer(data)[..FooterLen - k];
    TruncatedFrameLayout(data, k);
    ReadPrefixOfFrame(data, partial);
    DropAppended(Header(|data|) + data, partial);
    StaleFooterCompletesFooterRead(data, k);
  }

  /** As written: with a stale footer in the buffer, the cut-off frame is read as a record and then the stream ends. */
  lemma StaleFooterDrainsTruncatedFrame(data: seq<bv8>, k: nat)
    requires |data| < ArrayLimit && 1 <= k <= FooterLen
    ensures ReadAll(EncodeFrame(data)[..FrameSize(data) - k], Footer(data)) == Drain([data], EndOfStream)
  {
    var cut := EncodeFrame(data)[..FrameSize(data) - k];
    StaleFooterCompletesTruncatedFrame(data, k);
    ReadAllStep(cut, Footer(data), data, |cut|, Footer(data));
    DropAll(cut);
    ReadAllEmpty(Footer(data));
  }

  /**
   * As written: two identical records written back to back, with the last 1 to 4 bytes of
   * the stream cut off, still read back as both records followed by end of stream. The
   * second footer read gets fewer than 4 bytes, and the stale bytes left by the first read
   * complete a matching checksum.
   */
  lemma StaleFooterAcceptsTruncatedStream(data: seq<bv8>, k: nat)
    requires |data| < ArrayLimit && 1 <= k <= FooterLen
    ensures ReadAll(EncodeFrame(data) + EncodeFrame(data)[..FrameSize(data) - k], FreshFooter) == Drain([data, data], EndOfStream)
  {
    var cut := EncodeFrame(data)[..FrameSize(data) - k];
    StaleFooterDrainsTruncatedFrame(data, k);
    ReadAllOfFrame(data, cut, FreshFooter);
    TwoSingletons(data, data);
  }

  /** What a record from ReadFrameChecked rests on: the header and data reads, and a complete footer that checks. */
  lemma ReadFrameCheckedRecord(input: seq<bv8>)
    requires ReadFrameChecked(input).outcome.Record?
    ensures var r := ReadFrameChecked(input);
      var data := r.outcome.payload;
      ReadPrefix(input) == Payload(data, HeaderLen + |data|)
      && |input| >= FrameSize(data) && r.consumed == FrameSize(data)
      && r.footer == input[HeaderLen + |data|..][..FooterLen]
      && DecodeLE32(r.footer) == HashBytes(data)
  {
  }

  /**
   * Corrected: whenever ReadFrameChecked returns a record, it took exactly that record's
   * frame from the stream, and the stream begins with the frame `write` emits for it.
   */
  lemma ReadFrameCheckedSound(input: seq<bv8>)
    requires ReadFrameChecked(input).outcome.Record?
    ensures var data := ReadFrameChecked(input).outcome.payload;
      |data| < ArrayLimit
      && ReadFrameChecked(input).consumed == FrameSize(data) <= |input|
      && input[..FrameSize(data)] == EncodeFrame(data)
  {
    var r := ReadFrameChecked(input);
    var data := r.outcome.payload;
    ReadFrameCheckedRecord(input);
    ReadPrefixSound(input);
    var n := HeaderLen + |data|;
    TakeOfDrop(input, n, FooterLen);
    assert LE32(DecodeLE32(r.footer)) == r.footer;
    TakeJoin(input, HeaderLen, n);
    TakeJoin(input, n, FrameSize(data));
  }

  /** Corrected: a stream that stops 1 to 4 bytes short of a frame's end fails with a short footer. */
  lemma CheckedRejectsTruncatedFrame(data: seq<bv8>, k: nat)
    requires |data| < ArrayLimit && 1 <= k <= FooterLen
    ensures ReadFrameChecked(EncodeFrame(data)[..FrameSize(data) - k]).outcome == Failed(ShortFooter)
  {
    TruncatedFrameLayout(data, k);
    ReadPrefixOfFrame(data, Footer(data)[..FooterLen - k]);
  }

  /**
   * Corrected and as written agree, footer buffer aside, on every stream where the
   * corrected decoder does not report a short footer; in particular on every stream `write`
   * produces.
   */
  lemma CheckedAgreesWhenFooterComplete(input: seq<bv8>, footer: seq<bv8>)
    requires |footer| == FooterLen
    requires ReadFrameChecked(input).outcome != Failed(ShortFooter)
    ensures ReadFrame(input, footer).outcome == ReadFrameChecked(input).outcome
    ensures ReadFrame(input, footer).consumed == ReadFrameChecked(input).consumed
  {
    match ReadPrefix(input)
    case Stopped(_, _) =>
    case Payload(data, consumed) =>
      var afterData := input[consumed..];
      assert |afterData| >= FooterLen;
      OverwriteAll(afterData, footer);
  }

  /** Corrected round trip: ReadFrameChecked reads back the frame written for `data`. */
  lemma ReadFrameCheckedRoundTrip(data: seq<bv8>, rest: seq<bv8>)
    requires |data| < ArrayLimit
    ensures ReadFrameChecked(EncodeFrame(data) + rest).outcome == Record(data)
    ensures ReadFrameChecked(EncodeFrame(data) + rest).consumed == FrameSize(data)
  {
    var input := EncodeFrame(data) + rest;
    assert input == Header(|data|) + data + (Footer(data) + rest);
    ReadPrefixOfFrame(data, Footer(data) + rest);
    assert input[HeaderLen + |data|..][..FooterLen] == Footer(data);
    DecodeLE32OfLE32(HashBytes(data));
  }
}
