/**
 * The TFRecord frame format and the pure meaning of TFRecordCodec (TFRecordIO.java).
 *
 * A frame is
 *   length (8 bytes, little-endian) ++ masked CRC-32C of those 8 bytes (4 bytes, little-endian)
 *   ++ payload ++ masked CRC-32C of the payload (4 bytes, little-endian).
 *
 * The functions here describe what one call of TFRecordCodec.read does to the bytes
 * still unread on its channel, including the content of the reused footer buffer,
 * and what TFRecordCodec.write appends to its channel.
 */
module TFRecordFormat {
  import opened LittleEndian
  import opened Checksum

  /** HEADER_LEN: a 64-bit length and a 32-bit masked checksum. */
  const HeaderLen: nat := 12
  /** FOOTER_LEN: one 32-bit masked checksum. */
  const FooterLen: nat := 4
  /** Java arrays hold fewer than 2^31 elements. */
  const ArrayLimit: nat := 0x8000_0000
  /** The constant added after the rotation in `mask`. */
  const MaskDelta: bv32 := 0xa282_ead8

  // ---------------------------------------------------------------------------
  // Java integer arithmetic

  /** The Java `int` that an exact integer wraps to. */
  function WrapInt32(x: int): (r: int)
    ensures -0x8000_0000 <= r < 0x8000_0000
    ensures (x - r) % 0x1_0000_0000 == 0
  {
    var m := x % 0x1_0000_0000;
    if m < 0x8000_0000 then m else m - 0x1_0000_0000
  }

  /** The Java `long` whose 64 bits, read as an unsigned number, are `u`. */
  function SignedLong(u: nat): (r: int)
    requires u < TwoTo64
    ensures -0x8000_0000_0000_0000 <= r < 0x8000_0000_0000_0000
    ensures r == u || r == u - 0x1_0000_0000_0000_0000
  {
    if u < 0x8000_0000_0000_0000 then u else u - 0x1_0000_0000_0000_0000
  }

  /** The Java cast `(int) length` of the long whose bits read unsigned are `u`: its low 32 bits, signed. */
  function IntCast(u: nat): (r: int)
    ensures -0x8000_0000 <= r < 0x8000_0000
    ensures (u - r) % 0x1_0000_0000 == 0
    ensures u < 0x8000_0000 ==> r == u
  {
    WrapInt32(u)
  }

  /** A length of -1 casts to a negative capacity, so a read count of -1 never matches a length. */
  lemma MinusOneIsNoCapacity(u: nat)
    requires u < TwoTo64
    ensures SignedLong(u) == -1 ==> IntCast(u) < 0
  {
    if SignedLong(u) == -1 {
      assert u == 0xFFFF_FFFF_FFFF_FFFF;
      assert u % 0x1_0000_0000 == 0xFFFF_FFFF;
    }
  }

  // ---------------------------------------------------------------------------
  // Checksums

  /** `mask`: rotate right by 15 bits, then add MaskDelta with 32-bit wrap-around. */
  function Mask(crc: bv32): (r: bv32)
    ensures Unmask(r) == crc
  {
    ((crc >> 15) | (crc << 17)) + MaskDelta
  }

  /** The inverse of Mask: subtract MaskDelta, rotate left by 15 bits. */
  function Unmask(masked: bv32): bv32
  {
    (masked - MaskDelta).RotateLeft(15)
  }

  /** `hashLong`: the masked CRC-32C of the eight little-endian bytes of a long. */
  function HashLong(length: nat): (r: bv32)
    requires length < TwoTo64
    ensures Unmask(r) == Crc32c(LE64(length))
  {
    Mask(Crc32c(LE64(length)))
  }

  /** `hashBytes`: the masked CRC-32C of a byte array. */
  function HashBytes(data: seq<bv8>): (r: bv32)
    ensures Unmask(r) == Crc32c(data)
  {
    Mask(Crc32c(data))
  }

  // ---------------------------------------------------------------------------
  // Frame sizes

  /**
   * `recordLength` as written: HEADER_LEN + data.length + FOOTER_LEN in Java `int` arithmetic.
   * An array holds fewer than 2^31 bytes, so the sum wraps at most once, past 2^31 - 1
   * (FrameProperties.RecordLengthWraps ties this to WrapInt32).
   */
  function RecordLength(data: seq<bv8>): (r: int)
    requires |data| < ArrayLimit
    ensures -0x8000_0000 <= r < 0x8000_0000
    ensures (FrameSize(data) - r) % 0x1_0000_0000 == 0
  {
    var sum := HeaderLen + |data| + FooterLen;
    if sum < ArrayLimit then sum else sum - 0x1_0000_0000
  }

  /** The number of bytes a frame of `data` occupies. */
  function FrameSize(data: seq<bv8>): nat
  {
    HeaderLen + |data| + FooterLen
  }

  // ---------------------------------------------------------------------------
  // Encoding

  /** The 12 header bytes `write` puts into its header buffer for a payload of `n` bytes. */
  function Header(n: nat): (h: seq<bv8>)
    requires n < ArrayLimit
    ensures |h| == HeaderLen
  {
    LE64(n) + LE32(HashLong(n))
  }

  /** The 4 footer bytes `write` puts into its footer buffer for `data`. */
  function Footer(data: seq<bv8>): (f: seq<bv8>)
    ensures |f| == FooterLen
  {
    LE32(HashBytes(data))
  }

  /** The bytes `write` appends to its channel for one record. */
  function EncodeFrame(data: seq<bv8>): (frame: seq<bv8>)
    requires |data| < ArrayLimit
    ensures |frame| == FrameSize(data)
    ensures frame[..HeaderLen] == Header(|data|)
    ensures frame[HeaderLen..HeaderLen + |data|] == data
    ensures frame[HeaderLen + |data|..] == Footer(data)
  {
    Header(|data|) + data + Footer(data)
  }

  /** Every record a Java byte[] can hold. */
  ghost predicate AllArrays(records: seq<seq<bv8>>)
  {
    forall i :: 0 <= i < |records| ==> |records[i]| < ArrayLimit
  }

  /** The bytes a writer appends for `records`, in order. */
  function EncodeAll(records: seq<seq<bv8>>): (out: seq<bv8>)
    requires AllArrays(records)
    ensures |out| >= (HeaderLen + FooterLen) * |records|
  {
    if records == [] then [] else EncodeFrame(records[0]) + EncodeAll(records[1..])
  }

  /** Records whose `recordLength` does not overflow: below 2^31 - 16 bytes. */
  ghost predicate NoLengthOverflow(records: seq<seq<bv8>>)
  {
    forall i :: 0 <= i < |records| ==> |records[i]| < ArrayLimit - HeaderLen - FooterLen
  }

  /**
   * Where the reader's `startOfNextRecord` stands after it returned `records`, counted from
   * where it started: their `recordLength`s added up (each in Java `int` arithmetic).
   */
  function RecordsEnd(records: seq<seq<bv8>>): int
    requires AllArrays(records)
    decreases |records|
  {
    if records == [] then 0
    else RecordsEnd(records[..|records| - 1]) + RecordLength(records[|records| - 1])
  }

  /**
   * Where `startOfNextRecord` would stand if each record moved it by its exact frame size
   * rather than by the `int` sum `recordLength`.
   */
  function FrameEnd(records: seq<seq<bv8>>): nat
    decreases |records|
  {
    if records == [] then 0
    else FrameEnd(records[..|records| - 1]) + FrameSize(records[|records| - 1])
  }

  /** Returning one more record moves the end by that record's `recordLength`. */
  lemma RecordsEndAppend(records: seq<seq<bv8>>, data: seq<bv8>)
    requires AllArrays(records) && |data| < ArrayLimit
    ensures AllArrays(records + [data])
    ensures RecordsEnd(records + [data]) == RecordsEnd(records) + RecordLength(data)
  {
    assert (records + [data])[..|records|] == records;
  }

  // ---------------------------------------------------------------------------
  // Decoding

  /**
   * The count one `ReadableByteChannel.read` returns when `n` bytes of buffer space are
   * free and `available` holds the rest of the stream: 0 for an empty buffer, -1 at the
   * end of the stream, otherwise as many bytes as are there, up to `n`.
   */
  function ReadCount(available: seq<bv8>, n: nat): (count: int)
    ensures count >= -1
    ensures count == -1 <==> (n > 0 && available == [])
    ensures count >= 0 ==> count <= n && count <= |available|
    ensures count >= 0 ==> count == n || count == |available|
  {
    if n == 0 then 0
    else if available == [] then -1
    else if n <= |available| then n
    else |available|
  }

  /**
   * The count one read returns from a channel that hands over at most `chunk` bytes per
   * call. `ReadableByteChannel.read` is allowed to return fewer bytes than fit and remain,
   * as long as it returns at least one; this is one channel that does.
   */
  function ChunkCount(available: seq<bv8>, n: nat, chunk: nat): (count: int)
    requires chunk >= 1
    ensures count >= -1
    ensures count == -1 <==> (n > 0 && available == [])
    ensures count >= 0 ==> count <= n && count <= |available| && count <= chunk
    ensures n > 0 && available != [] ==> count >= 1
    ensures chunk >= n || chunk >= |available| ==> count == ReadCount(available, n)
  {
    var full := ReadCount(available, n);
    if full > chunk then chunk else full
  }

  /** Why `read` gave up: the four `checkState` messages, and `ByteBuffer.allocate` of a negative size. */
  datatype Failure =
    | ShortHeader          // "Not a valid TFRecord. Fewer than 12 bytes."
    | LengthMaskMismatch   // "Mismatch of length mask"
    | NegativeCapacity     // IllegalArgumentException from ByteBuffer.allocate((int) length)
    | InvalidData          // "Invalid data"
    | DataMaskMismatch     // "Mismatch of data mask"
    | ShortFooter          // only the corrected decoder, ReadFrameChecked, reports this

  /** What one `read` returns: null, a record, or an exception. */
  datatype Outcome = EndOfStream | Record(payload: seq<bv8>) | Failed(reason: Failure)

  /** One `read`: its outcome, the bytes it took from the channel, and the footer buffer afterwards. */
  datatype Step = Step(outcome: Outcome, consumed: nat, footer: seq<bv8>)

  /** The header and data reads of `read`: either it already stopped, or it holds a payload. */
  datatype Prefix = Stopped(outcome: Outcome, consumed: nat) | Payload(data: seq<bv8>, consumed: nat)

  /** The first `HeaderLen` bytes of `input` are a header whose length mask checks out. */
  predicate HeaderChecks(input: seq<bv8>)
    requires |input| >= HeaderLen
  {
    HashLong(DecodeLE64(input[..8])) == DecodeLE32(input[8..HeaderLen])
  }

  /** The data read of `read`, once the header announcing `length` has passed its mask check. */
  function ReadData(input: seq<bv8>, length: nat): (r: Prefix)
    requires |input| >= HeaderLen && length < TwoTo64
    ensures HeaderLen <= r.consumed <= |input|
    ensures r.Payload? ==> r.consumed == HeaderLen + |r.data| && |r.data| < ArrayLimit
    ensures r.Payload? ==> input[HeaderLen..r.consumed] == r.data
    ensures r.Stopped? ==> r.outcome.Failed?
  {
    var capacity := IntCast(length);
    if capacity < 0 then Stopped(Failed(NegativeCapacity), HeaderLen)
    else
      var afterHeader := input[HeaderLen..];
      var dataCount := ReadCount(afterHeader, capacity);
      MinusOneIsNoCapacity(length);
      if dataCount != SignedLong(length) then
        Stopped(Failed(InvalidData), HeaderLen + (if dataCount < 0 then 0 else dataCount))
      else
        Payload(afterHeader[..dataCount], HeaderLen + dataCount)
  }

  /** `read` up to the data check: reads the header, checks the length mask, reads the data. */
  function ReadPrefix(input: seq<bv8>): (r: Prefix)
    ensures r.consumed <= |input|
    ensures r.Payload? ==> r.consumed == HeaderLen + |r.data| && |r.data| < ArrayLimit
    ensures r.Payload? ==> input[HeaderLen..r.consumed] == r.data
    ensures r.Stopped? ==> !r.outcome.Record?
  {
    var headerCount := ReadCount(input, HeaderLen);
    if headerCount <= 0 then Stopped(EndOfStream, 0)
    else if headerCount != HeaderLen then Stopped(Failed(ShortHeader), headerCount)
    else
      var length := DecodeLE64(input[..8]);
      if HashLong(length) != DecodeLE32(input[8..HeaderLen]) then Stopped(Failed(LengthMaskMismatch), HeaderLen)
      else ReadData(input, length)
  }

  /**
   * `read` as written. The footer read's count is not checked: whatever it did not
   * overwrite of the footer buffer (`footer`, left by the previous call) is compared
   * with the data checksum as if it had been read.
   */
  function ReadFrame(input: seq<bv8>, footer: seq<bv8>): (r: Step)
    requires |footer| == FooterLen
    ensures r.consumed <= |input| && |r.footer| == FooterLen
    ensures r.outcome.Record? ==> r.consumed >= HeaderLen + |r.outcome.payload|
    ensures r.outcome.Record? ==> |r.outcome.payload| < ArrayLimit
  {
    match ReadPrefix(input)
    case Stopped(outcome, consumed) => Step(outcome, consumed, footer)
    case Payload(data, consumed) =>
      var s := ReadFooter(data, input[consumed..], footer);
      Step(s.outcome, consumed + s.consumed, s.footer)
  }

  /**
   * The footer read and data check of `read` as written, after `data` was read and with
   * `afterData` left in the channel: the bytes the read yields overwrite the front of the
   * footer buffer, and the whole buffer is compared with the data's mask.
   */
  function ReadFooter(data: seq<bv8>, afterData: seq<bv8>, footer: seq<bv8>): (r: Step)
    requires |footer| == FooterLen
    ensures r.consumed <= |afterData| && r.consumed <= FooterLen && |r.footer| == FooterLen
    ensures r.outcome == Record(data) || r.outcome == Failed(DataMaskMismatch)
  {
    var footerCount := ReadCount(afterData, FooterLen);
    var got := if footerCount < 0 then 0 else footerCount;
    var footer' := afterData[..got] + footer[got..];
    if HashBytes(data) != DecodeLE32(footer') then Step(Failed(DataMaskMismatch), got, footer')
    else Step(Record(data), got, footer')
  }

  /** `read` as evidently intended: a footer read that yields fewer than 4 bytes is a failure. */
  function ReadFrameChecked(input: seq<bv8>): (r: Step)
    ensures r.consumed <= |input| && |r.footer| == FooterLen
  {
    match ReadPrefix(input)
    case Stopped(outcome, consumed) => Step(outcome, consumed, [0, 0, 0, 0])
    case Payload(data, consumed) =>
      var afterData := input[consumed..];
      if |afterData| < FooterLen then Step(Failed(ShortFooter), |input|, [0, 0, 0, 0])
      else
        var footer' := afterData[..FooterLen];
        if HashBytes(data) != DecodeLE32(footer') then Step(Failed(DataMaskMismatch), consumed + FooterLen, footer')
        else Step(Record(data), consumed + FooterLen, footer')
  }

  /** The records successive `read` calls return, and how the last call ended. */
  datatype Drain = Drain(records: seq<seq<bv8>>, last: Outcome)

  /** Calling `read` until it returns null or fails, starting with footer buffer `footer`. */
  function ReadAll(input: seq<bv8>, footer: seq<bv8>): (r: Drain)
    requires |footer| == FooterLen
    ensures !r.last.Record?
    ensures HeaderLen * |r.records| <= |input|
    decreases |input|
  {
    var step := ReadFrame(input, footer);
    if step.outcome.Record? then
      var rest := ReadAll(input[step.consumed..], step.footer);
      Drain([step.outcome.payload] + rest.records, rest.last)
    else
      Drain([], step.outcome)
  }
}
