# TFRecord framing in Apache Beam's TFRecordIO, modelled and verified in Dafny

`TFRecordIO` reads and writes TensorFlow's TFRecord files. Each record is stored as one
frame:

- an 8-byte little-endian length;
- a 4-byte masked CRC-32C of those 8 bytes;
- the payload bytes;
- a 4-byte masked CRC-32C of the payload.

The mask rotates the checksum right by 15 bits and adds `0xa282ead8`.

`TFRecordCodec` does the framing. It keeps one 12-byte header buffer and one 4-byte footer
buffer and reuses them across calls. `TFRecordReader` drives `read` over a channel and
tracks record offsets. `TFRecordWriter` hands every record to `write`. Alongside these
sit the file-name side of the IO:

- the compression types and the extension each one matches;
- the channel compression chosen for the sink and for the source;
- the check that rejects old-style `@N` / `@*` shard patterns in output name components.

The project has these parts:

- `TFRecordFormat` states what one `read` call does as a pure function of the unread bytes and the footer buffer's content (`ReadFrame`). It also states the bytes one `write` call appends (`EncodeFrame`).
- `FrameProperties` proves the codec's properties over those functions. These include the round trip of a single frame and of a whole stream, the sizes, and exactly when each failure happens.
- `TFRecordCodec`, `TFRecordReader` and `TFRecordWriter` are imperative classes over the source's fields and buffers. Each method is proved to do what the pure functions say.
- `FooterCheck`, the `RecordLength` lemmas and `ShortReads` cover three defects in the source; see "## Findings".
- `Checksum` implements CRC-32C, which the source takes from Guava's `Hashing.crc32c()`.
- `LittleEndian` holds the byte order of `ByteBuffer.order(LITTLE_ENDIAN)`.
- `Channels` holds the byte channels the codec is handed, a channel that hands over bytes in chunks, and `ReadFully`, the read that fills its buffer.
- `FileNaming` holds `CompressionType`, `writableByteChannelFactory`, `getSource` and `validateOutputComponent`.

Java integer semantics are written out:

- `(int) length` keeps the low 32 bits, signed (`IntCast`).
- The header's 64 bits are read as a signed `long` (`SignedLong`).
- `recordLength` wraps at 32 bits (`RecordLength`).
- `ByteBuffer.allocate` of a negative size is a failure of its own (`NegativeCapacity`).

Three points of the code are kept as written:

- The count of the footer read is never checked (`TFRecordIO.java`:877). A short footer read leaves the previous record's bytes in the footer buffer (first finding).
- `write` ignores the counts that `outChannel.write` returns (`TFRecordIO.java`:894, :896, :901). The model's sink accepts every write whole.
- `read` raises four distinct `checkState` messages (`TFRecordIO.java`:863-883). `Failure` keeps them apart.

`read` issues a single channel read for the header, one for the data and one for the footer (`TFRecordIO.java`:859, :874, :877). `Channels.ByteSource` is a channel whose every read fills the buffer or drains the stream, which is what `Channels.ReadFully` gives over `Channels.ChunkedSource`, a channel that hands over at most `chunk` bytes per read. `ShortReads` shows what the single reads do over a channel that returns fewer (third finding).

## Model

All source paths are relative to the repository root. `TFRecordIO.java` stands for `sdks/java/core/src/main/java/org/apache/beam/sdk/io/TFRecordIO.java`; the cells spell it out.

| member | source | states |
|---|---|---|
| `Checksum.Crc32c` | sdks/java/core/src/main/java/org/apache/beam/sdk/io/TFRecordIO.java:836 | CRC-32C (reflected Castagnoli, register starting at all ones and inverted at the end) of the empty string is 0; `CheckValue` pins the standard check value |
| `TFRecordFormat.Mask` | sdks/java/core/src/main/java/org/apache/beam/sdk/io/TFRecordIO.java:841-843 | `mask` loses nothing: `Unmask` of the masked value gives back the checksum |
| `TFRecordFormat.HashLong` | sdks/java/core/src/main/java/org/apache/beam/sdk/io/TFRecordIO.java:845-847 | `hashLong(length)` unmasks to the CRC-32C of the length's 8 little-endian bytes |
| `TFRecordFormat.HashBytes` | sdks/java/core/src/main/java/org/apache/beam/sdk/io/TFRecordIO.java:849-851 | `hashBytes(data)` unmasks to the CRC-32C of the data |
| `FrameProperties.MaskIsRotateThenAdd` | sdks/java/core/src/main/java/org/apache/beam/sdk/io/TFRecordIO.java:841-843 | `mask(crc)` is `crc` rotated right by 15 bits plus `0xa282ead8`, wrapping at 32 bits |
| `FrameProperties.MaskBijection` | sdks/java/core/src/main/java/org/apache/beam/sdk/io/TFRecordIO.java:841-843 | `Unmask` undoes `mask` and `mask` undoes `Unmask`, so two checksums have equal masks exactly when they are equal |
| `Checksum.CheckValue` | sdks/java/core/src/main/java/org/apache/beam/sdk/io/TFRecordIO.java:836 | the CRC-32C behind `hashLong` and `hashBytes` yields the standard check value `0xE3069283` for the ASCII digits "123456789" |
| `LittleEndian.LE32` | sdks/java/core/src/main/java/org/apache/beam/sdk/io/TFRecordIO.java:899 | `putInt` writes 4 bytes; `DecodeLE32OfLE32` reads them back as the int |
| `LittleEndian.LE64` | sdks/java/core/src/main/java/org/apache/beam/sdk/io/TFRecordIO.java:892 | `putLong` writes 8 bytes; `DecodeLE64OfLE64` reads them back as the length |
| `LittleEndian.DecodeLE64` | sdks/java/core/src/main/java/org/apache/beam/sdk/io/TFRecordIO.java:867 | `getLong`, before the sign, reads 8 bytes as a number below 2^64; `LE64OfDecodeLE64` shows no byte string is lost |
| `LittleEndian.DecodeLE64OfLE64` | sdks/java/core/src/main/java/org/apache/beam/sdk/io/TFRecordIO.java:892 | `putLong` writes 8 bytes, and `getLong` on them returns the length that was put |
| `LittleEndian.LE64OfDecodeLE64` | sdks/java/core/src/main/java/org/apache/beam/sdk/io/TFRecordIO.java:867 | any 8 bytes read by `getLong` are the little-endian bytes of the number read |
| `LittleEndian.DecodeLE32OfLE32` | sdks/java/core/src/main/java/org/apache/beam/sdk/io/TFRecordIO.java:899 | `putInt` writes 4 bytes, and `getInt` on them returns the int that was put |
| `LittleEndian.DecodeLE32` | sdks/java/core/src/main/java/org/apache/beam/sdk/io/TFRecordIO.java:879 | `getInt` reads 4 bytes least significant first, and any 4 bytes are the little-endian encoding of the int it reads |
| `LittleEndian.FromLEBytesOfLEBytes` | sdks/java/core/src/main/java/org/apache/beam/sdk/io/TFRecordIO.java:838 | a number below 256^k written as k little-endian bytes reads back as that number |
| `LittleEndian.LEBytesOfFromLEBytes` | sdks/java/core/src/main/java/org/apache/beam/sdk/io/TFRecordIO.java:838 | any byte string is the little-endian encoding of the number it reads as |
| `TFRecordFormat.SignedLong` | sdks/java/core/src/main/java/org/apache/beam/sdk/io/TFRecordIO.java:867 | the long read from the header lies in the `long` range and equals the unsigned value or that value minus 2^64 |
| `TFRecordFormat.WrapInt32` | sdks/java/core/src/main/java/org/apache/beam/sdk/io/TFRecordIO.java:873 | the Java `int` a value wraps to lies in the `int` range and differs from the value by a multiple of 2^32 |
| `TFRecordFormat.IntCast` | sdks/java/core/src/main/java/org/apache/beam/sdk/io/TFRecordIO.java:873 | `(int) length` lies in the `int` range, differs from the length by a multiple of 2^32, and is the length itself below 2^31 |
| `TFRecordFormat.MinusOneIsNoCapacity` | sdks/java/core/src/main/java/org/apache/beam/sdk/io/TFRecordIO.java:873-874 | a header length of -1 casts to a negative capacity, so the channel's -1 at end of stream can never equal the length |
| `TFRecordFormat.ReadCount` | sdks/java/core/src/main/java/org/apache/beam/sdk/io/TFRecordIO.java:859 | a channel read returns -1 exactly when the stream is exhausted and the buffer has room, and never anything below -1; otherwise it returns at most the room and at most what is left, and it fills the buffer or takes everything left |
| `TFRecordFormat.ChunkCount` | sdks/java/core/src/main/java/org/apache/beam/sdk/io/TFRecordIO.java:859 | a read from a channel that hands over at most `chunk` bytes per call returns -1 exactly at the end of the stream, at least 1 byte while bytes remain and the buffer has room, at most `chunk`, and what `ReadCount` gives whenever the chunk covers the room or the rest of the stream |
| `TFRecordFormat.RecordLength` | sdks/java/core/src/main/java/org/apache/beam/sdk/io/TFRecordIO.java:853-855 | `recordLength` lies in the `int` range and differs from the frame size by a multiple of 2^32 |
| `FrameProperties.RecordLengthWraps` | sdks/java/core/src/main/java/org/apache/beam/sdk/io/TFRecordIO.java:853-855 | `recordLength` is `12 + data.length + 4` computed in 32-bit `int` arithmetic |
| `FrameProperties.RecordLengthIsFrameSize` | sdks/java/core/src/main/java/org/apache/beam/sdk/io/TFRecordIO.java:853-855 | below 2^31 - 16 payload bytes, `recordLength` is the exact frame size 16 + length |
| `FrameProperties.RecordLengthOverflows` | sdks/java/core/src/main/java/org/apache/beam/sdk/io/TFRecordIO.java:853-855 | from 2^31 - 16 payload bytes on, `recordLength` is the frame size minus 2^32, a negative number |
| `TFRecordFormat.EncodeFrame` | sdks/java/core/src/main/java/org/apache/beam/sdk/io/TFRecordIO.java:887-902 | `write` emits exactly 16 + length bytes: the header, then the payload, then the footer, each at its own offset |
| `TFRecordFormat.Header` | sdks/java/core/src/main/java/org/apache/beam/sdk/io/TFRecordIO.java:891-892 | the header buffer `write` fills holds 12 bytes; `HeaderDecodes` reads them back as the length with a passing length-mask check |
| `TFRecordFormat.Footer` | sdks/java/core/src/main/java/org/apache/beam/sdk/io/TFRecordIO.java:898-899 | the footer buffer `write` fills holds 4 bytes; `EncodeFrameLayout` reads them back as the payload's mask |
| `TFRecordFormat.EncodeAll` | sdks/java/core/src/main/java/org/apache/beam/sdk/io/TFRecordIO.java:821-823 | repeated `write` calls emit at least 16 bytes per record; `EncodeAllAppend` and `ReadAllRoundTrip` state their content |
| `FrameProperties.EncodeFrameLayout` | sdks/java/core/src/main/java/org/apache/beam/sdk/io/TFRecordIO.java:887-902 | a written frame holds the length, the length's mask, the payload and the payload's mask, at offsets 0, 8, 12 and 12 + length |
| `TFRecordFormat.ReadData` | sdks/java/core/src/main/java/org/apache/beam/sdk/io/TFRecordIO.java:873-874 | after a checked header, the data read either yields the payload, which is the bytes right after the header, or fails |
| `TFRecordFormat.ReadPrefix` | sdks/java/core/src/main/java/org/apache/beam/sdk/io/TFRecordIO.java:857-874 | the header and data reads never consume more than the stream holds, and a payload is the bytes after the 12-byte header |
| `TFRecordFormat.ReadFooter` | sdks/java/core/src/main/java/org/apache/beam/sdk/io/TFRecordIO.java:876-883 | the footer read takes at most 4 bytes, and the outcome is the payload or a data-mask mismatch |
| `TFRecordFormat.ReadFrame` | sdks/java/core/src/main/java/org/apache/beam/sdk/io/TFRecordIO.java:857-885 | one `read` consumes at most what the stream holds, and a returned record is shorter than 2^31 bytes and consumed at least its header and payload |
| `TFRecordFormat.ReadFrameChecked` | sdks/java/core/src/main/java/org/apache/beam/sdk/io/TFRecordIO.java:876-883 | the corrected `read` (see "## Findings") consumes at most what the stream holds and leaves a 4-byte footer |
| `TFRecordFormat.RecordsEndAppend` | sdks/java/core/src/main/java/org/apache/beam/sdk/io/TFRecordIO.java:742 | returning one more record moves the offset of the next record by that record's `recordLength` |
| `FrameProperties.HeaderDecodes` | sdks/java/core/src/main/java/org/apache/beam/sdk/io/TFRecordIO.java:866-871 | a written header reads back as its length and passes the length-mask check |
| `FrameProperties.ReadDataOfLength` | sdks/java/core/src/main/java/org/apache/beam/sdk/io/TFRecordIO.java:873-874 | with a checked length n < 2^31, the data read returns the next n bytes if the stream holds them and fails with "Invalid data" otherwise |
| `FrameProperties.ReadPrefixOfFrame` | sdks/java/core/src/main/java/org/apache/beam/sdk/io/TFRecordIO.java:857-874 | a written header followed by its payload reads back as that payload, whatever follows |
| `FrameProperties.ReadFrameRoundTrip` | sdks/java/core/src/main/java/org/apache/beam/sdk/io/TFRecordIO.java:857-902 | `read` on a stream that starts with the frame `write` emitted for `data` returns `data`, takes exactly that frame and leaves that frame's footer in the buffer, whatever follows and whatever the buffer held before |
| `TFRecordFormat.ReadAll` | sdks/java/core/src/main/java/org/apache/beam/sdk/io/TFRecordIO.java:737-748 | calling `read` until it returns null or fails ends on null or a failure, never on a record, and returns at most one record per 12 bytes of input |
| `FrameProperties.ReadAllEmpty` | sdks/java/core/src/main/java/org/apache/beam/sdk/io/TFRecordIO.java:859-862 | reading an exhausted stream ends at once with null |
| `FrameProperties.ReadAllStep` | sdks/java/core/src/main/java/org/apache/beam/sdk/io/TFRecordIO.java:857-885 | repeated reads are one `read` followed by the reads of what it left |
| `FrameProperties.ReadAllOfFrame` | sdks/java/core/src/main/java/org/apache/beam/sdk/io/TFRecordIO.java:857-902 | repeated reads of a stream that starts with a written frame return that frame's record first, then continue after the frame |
| `FrameProperties.ReadAllRoundTrip` | sdks/java/core/src/main/java/org/apache/beam/sdk/io/TFRecordIO.java:857-902 | reading back, call after call, what `write` emitted for a list of records yields exactly those records in order and then null |
| `FrameProperties.EncodeAllAppend` | sdks/java/core/src/main/java/org/apache/beam/sdk/io/TFRecordIO.java:821-823 | writing one more record appends exactly its frame |
| `FrameProperties.EncodeAllEmpty` | sdks/java/core/src/main/java/org/apache/beam/sdk/io/TFRecordIO.java:887-902 | the output is empty exactly when no record was written |
| `FrameProperties.RecordsEndIsEncodedLength` | sdks/java/core/src/main/java/org/apache/beam/sdk/io/TFRecordIO.java:737-742 | when no `recordLength` overflows, the next-record offset after a run of records is the number of bytes written for them |
| `FrameProperties.FrameEndIsEncodedLength` | sdks/java/core/src/main/java/org/apache/beam/sdk/io/TFRecordIO.java:742 | corrected offsets (see "## Findings"): moving the next-record offset by the exact frame size makes it equal to the number of bytes written, for records of every size |
| `FrameProperties.EndOfStreamOnlyWhenEmpty` | sdks/java/core/src/main/java/org/apache/beam/sdk/io/TFRecordIO.java:859-865 | `read` returns null exactly on an exhausted stream, consuming nothing, and fails with "Fewer than 12 bytes" exactly when 1 to 11 bytes remain |
| `FrameProperties.LengthMaskMismatchExactly` | sdks/java/core/src/main/java/org/apache/beam/sdk/io/TFRecordIO.java:866-871 | `read` fails with "Mismatch of length mask" exactly when a complete header's stored mask differs from `hashLong(length)` |
| `FrameProperties.TruncatedDataFails` | sdks/java/core/src/main/java/org/apache/beam/sdk/io/TFRecordIO.java:873-874 | a checked header announcing more bytes than remain makes `read` fail, with "Invalid data" when the length is below 2^31 |
| `FrameProperties.HugeLengthFails` | sdks/java/core/src/main/java/org/apache/beam/sdk/io/TFRecordIO.java:873-874 | a header length of 2^31 or more never yields a record |
| `FrameProperties.ReadPrefixSound` | sdks/java/core/src/main/java/org/apache/beam/sdk/io/TFRecordIO.java:857-874 | whenever the header and data reads yield a payload, the stream starts with the header `write` emits for that payload's size, then the payload |
| `FrameProperties.ReadFrameSound` | sdks/java/core/src/main/java/org/apache/beam/sdk/io/TFRecordIO.java:857-885 | whenever `read` returns a record, the stream starts with that record's header and payload, and the footer buffer holds the record's mask |
| `FrameProperties.DataMaskMismatchFails` | sdks/java/core/src/main/java/org/apache/beam/sdk/io/TFRecordIO.java:876-883 | with a complete frame in the stream, any 4 footer bytes other than the payload's mask make `read` fail with "Mismatch of data mask" |
| `FooterCheck.TruncatedFrameLayout` | sdks/java/core/src/main/java/org/apache/beam/sdk/io/TFRecordIO.java:887-902 | a written frame cut k bytes short is its header, its payload and the first 4 - k footer bytes |
| `FooterCheck.StaleFooterCompletesFooterRead` | sdks/java/core/src/main/java/org/apache/beam/sdk/io/TFRecordIO.java:876-883 | as written: when the footer read finds only part of a footer and the buffer still holds that same footer, the data check passes |
| `FooterCheck.StaleFooterCompletesTruncatedFrame` | sdks/java/core/src/main/java/org/apache/beam/sdk/io/TFRecordIO.java:876-883 | as written: a frame cut off 1 to 4 bytes into its footer is returned as a complete record when the buffer holds that record's footer from an earlier read |
| `FooterCheck.StaleFooterDrainsTruncatedFrame` | sdks/java/core/src/main/java/org/apache/beam/sdk/io/TFRecordIO.java:857-885 | as written: with that stale footer, repeated reads of the cut frame return its record and then null |
| `FooterCheck.StaleFooterAcceptsTruncatedStream` | sdks/java/core/src/main/java/org/apache/beam/sdk/io/TFRecordIO.java:876-883 | as written: two equal records written back to back, with 1 to 4 bytes cut off the end, read back as both records and then null, with no error |
| `FooterCheck.ReadFrameCheckedRecord` | sdks/java/core/src/main/java/org/apache/beam/sdk/io/TFRecordIO.java:876-883 | corrected: a record rests on a successful header and data read, a complete 4-byte footer and a matching mask |
| `FooterCheck.ReadFrameCheckedSound` | sdks/java/core/src/main/java/org/apache/beam/sdk/io/TFRecordIO.java:876-883 | corrected: whenever a record is returned, exactly its frame was consumed, and the stream starts with the frame `write` emits for it |
| `FooterCheck.CheckedRejectsTruncatedFrame` | sdks/java/core/src/main/java/org/apache/beam/sdk/io/TFRecordIO.java:876-877 | corrected: a frame cut 1 to 4 bytes short fails with a short footer |
| `FooterCheck.CheckedAgreesWhenFooterComplete` | sdks/java/core/src/main/java/org/apache/beam/sdk/io/TFRecordIO.java:876-883 | corrected and as-written `read` return the same outcome and consume the same bytes on every stream where the corrected one does not report a short footer |
| `FooterCheck.ReadFrameCheckedRoundTrip` | sdks/java/core/src/main/java/org/apache/beam/sdk/io/TFRecordIO.java:876-883 | corrected: a written frame reads back as its record and consumes exactly the frame |
| `Channels.ByteSource.Read` | sdks/java/core/src/main/java/org/apache/beam/sdk/io/TFRecordIO.java:859 | a channel read copies `ReadCount` unread bytes into the front of the buffer, leaves the rest of the buffer alone and advances the position by that count |
| `Channels.ChunkedSource.ReadInto` | sdks/java/core/src/main/java/org/apache/beam/sdk/io/TFRecordIO.java:859 | a read from a chunked channel copies `ChunkCount` unread bytes to the buffer at its position, leaves the rest of the buffer alone and advances by that count |
| `Channels.ReadFully` | sdks/java/core/src/main/java/org/apache/beam/sdk/io/TFRecordIO.java:859-877 | corrected (see "## Findings"): reading until the buffer is full or the stream ends, over a chunked channel, returns `ReadCount` of the unread bytes with those bytes at the buffer's front, exactly what `ByteSource.Read` gives |
| `ShortReads.ReadPrefixChunked` | sdks/java/core/src/main/java/org/apache/beam/sdk/io/TFRecordIO.java:857-874 | as written over a chunked channel: the header and data reads consume at most the stream and a payload is the bytes after the header |
| `ShortReads.ChunkedReadAgrees` | sdks/java/core/src/main/java/org/apache/beam/sdk/io/TFRecordIO.java:857-874 | when each read can hand over the whole rest of the stream, the chunked channel gives the same header and data reads as `ReadPrefix` |
| `ShortReads.ChunkedReadRejectsWrittenFrame` | sdks/java/core/src/main/java/org/apache/beam/sdk/io/TFRecordIO.java:859-874 | as written: over a channel handing over fewer than 12 bytes per call a written frame fails with "Fewer than 12 bytes", and with fewer than the payload's length it fails with "Invalid data", although the whole frame is there |
| `Channels.ByteSink.Write` | sdks/java/core/src/main/java/org/apache/beam/sdk/io/TFRecordIO.java:894 | a channel write appends the whole buffer |
| `TFRecordCodec.Put` | sdks/java/core/src/main/java/org/apache/beam/sdk/io/TFRecordIO.java:892 | `put` overwrites exactly the given bytes at the given offset and keeps the rest of the buffer |
| `TFRecordCodec.Codec.constructor` | sdks/java/core/src/main/java/org/apache/beam/sdk/io/TFRecordIO.java:838-839 | the codec starts with a 12-byte header buffer and a zero-filled 4-byte footer buffer |
| `TFRecordCodec.Codec.ReadPrefixFrom` | sdks/java/core/src/main/java/org/apache/beam/sdk/io/TFRecordIO.java:857-874 | the header read, the length-mask check and the data read give what `ReadPrefix` says and advance the channel by what it consumed |
| `TFRecordCodec.Codec.ReadDataFrom` | sdks/java/core/src/main/java/org/apache/beam/sdk/io/TFRecordIO.java:873-874 | allocating `(int) length` bytes and filling them from the channel gives what `ReadData` says |
| `TFRecordCodec.Codec.ReadFooterFrom` | sdks/java/core/src/main/java/org/apache/beam/sdk/io/TFRecordIO.java:876-884 | the unchecked footer read and the data-mask check give the outcome, consumption and footer buffer that `ReadFooter` says |
| `TFRecordCodec.Codec.Read` | sdks/java/core/src/main/java/org/apache/beam/sdk/io/TFRecordIO.java:857-885 | `read` returns what `ReadFrame` says for the unread bytes and the previous footer buffer, advances the channel by that frame's consumption and leaves the footer `ReadFrame` gives |
| `TFRecordCodec.Codec.Write` | sdks/java/core/src/main/java/org/apache/beam/sdk/io/TFRecordIO.java:887-902 | `write` appends exactly `EncodeFrame(data)` to the channel and leaves that frame's header and footer in the buffers |
| `TFRecordReader.Reader.constructor` | sdks/java/core/src/main/java/org/apache/beam/sdk/io/TFRecordIO.java:702-712 | a new reader has both offsets at 0, no current record and no channel |
| `TFRecordReader.Reader.GetCurrentOffset` | sdks/java/core/src/main/java/org/apache/beam/sdk/io/TFRecordIO.java:715-720 | NoSuchElementException exactly when no record is present, otherwise the current record's start offset |
| `TFRecordReader.Reader.GetCurrent` | sdks/java/core/src/main/java/org/apache/beam/sdk/io/TFRecordIO.java:723-728 | NoSuchElementException exactly when no record is present, otherwise the current record |
| `TFRecordReader.Reader.StartReading` | sdks/java/core/src/main/java/org/apache/beam/sdk/io/TFRecordIO.java:731-734 | binds the channel and a fresh codec with a zeroed footer buffer, and changes no offset and no current record |
| `TFRecordReader.Reader.ReadNextRecord` | sdks/java/core/src/main/java/org/apache/beam/sdk/io/TFRecordIO.java:737-748 | the current record starts where the previous one ended. On a record it is present and the next offset moves by `recordLength`. On null no record is present. A codec failure propagates and leaves the current record and the next offset unchanged. The channel moves by what `ReadFrame` consumes. The next offset always equals the start offset plus the sum of the `recordLength`s of the records returned |
| `TFRecordReader.Reader.Advance` | sdks/java/core/src/main/java/org/apache/beam/sdk/io/TFRecordIO.java:740-747 | the branch of `readNextRecord` after `codec.read`: record present and offset advanced, or no record, or failure with nothing changed |
| `TFRecordWriter.Writer.constructor` | sdks/java/core/src/main/java/org/apache/beam/sdk/io/TFRecordIO.java:809-812 | a new writer has no channel and has written nothing |
| `TFRecordWriter.Writer.PrepareWrite` | sdks/java/core/src/main/java/org/apache/beam/sdk/io/TFRecordIO.java:815-818 | binds the channel and a fresh codec; nothing has been written through them yet |
| `TFRecordWriter.Writer.Write` | sdks/java/core/src/main/java/org/apache/beam/sdk/io/TFRecordIO.java:821-823 | appends the frame of the value, so the channel always holds what it held at `prepareWrite` followed by the frames of the records written so far, in order |
| `FileNaming.LowerChar` | sdks/java/core/src/main/java/org/apache/beam/sdk/io/TFRecordIO.java:631 | `toLowerCase` of one character: a capital A-Z becomes the letter 32 code points higher, every other character is kept, and the result is never a capital (ASCII) |
| `FileNaming.ToLower` | sdks/java/core/src/main/java/org/apache/beam/sdk/io/TFRecordIO.java:631 | `toLowerCase` keeps the length, moves every capital 32 code points up, keeps every other character, and leaves no capital |
| `FileNaming.ToLowerIdempotent` | sdks/java/core/src/main/java/org/apache/beam/sdk/io/TFRecordIO.java:631 | lower-casing twice is lower-casing once |
| `FileNaming.ToLowerAppend` | sdks/java/core/src/main/java/org/apache/beam/sdk/io/TFRecordIO.java:631 | lower-casing distributes over concatenation |
| `FileNaming.EndsWith` | sdks/java/core/src/main/java/org/apache/beam/sdk/io/TFRecordIO.java:631 | `endsWith(suffix)` needs the suffix to be no longer than the string and holds for the empty suffix; `EndsWithIsStemPlusSuffix` states its meaning |
| `FileNaming.EndsWithIsStemPlusSuffix` | sdks/java/core/src/main/java/org/apache/beam/sdk/io/TFRecordIO.java:631 | `endsWith(suffix)` holds exactly when the string is some stem followed by the suffix |
| `FileNaming.CompressionType.FilenameSuffix` | sdks/java/core/src/main/java/org/apache/beam/sdk/io/TFRecordIO.java:601-623 | the extension is empty exactly for AUTO and NONE |
| `FileNaming.CompressionType.Matches` | sdks/java/core/src/main/java/org/apache/beam/sdk/io/TFRecordIO.java:630-632 | a type with an empty extension (AUTO, NONE) matches every name; `MatchesIffLowerStem` states exactly when `matches` holds |
| `FileNaming.MatchesIffLowerStem` | sdks/java/core/src/main/java/org/apache/beam/sdk/io/TFRecordIO.java:630-632 | `matches(f)` holds exactly when lower-cased `f` is a stem followed by the lower-cased extension, and AUTO and NONE match every name |
| `FileNaming.StemPlusSuffixMatches` | sdks/java/core/src/main/java/org/apache/beam/sdk/io/TFRecordIO.java:630-632 | a name ending with the type's extension in any letter case matches the type |
| `FileNaming.GzipAndZlibExclusive` | sdks/java/core/src/main/java/org/apache/beam/sdk/io/TFRecordIO.java:630-632 | no file name matches both GZIP and ZLIB |
| `FileNaming.WritableByteChannelFactory` | sdks/java/core/src/main/java/org/apache/beam/sdk/io/TFRecordIO.java:771-784 | the sink's channel compression fails with "Unsupported compression type AUTO" exactly for AUTO |
| `FileNaming.SourceFor` | sdks/java/core/src/main/java/org/apache/beam/sdk/io/TFRecordIO.java:217-234 | the source detects compression from the extension exactly for AUTO |
| `FileNaming.SinkAndSourceAgree` | sdks/java/core/src/main/java/org/apache/beam/sdk/io/TFRecordIO.java:771-784 | every type but AUTO can be written; the source for a type undoes the sink compression chosen for it; different writable types pick different compressions |
| `FileNaming.HasShardMarker` | sdks/java/core/src/main/java/org/apache/beam/sdk/io/TFRecordIO.java:641 | the scan standing for `SHARD_OUTPUT_PATTERN.matcher(..).find()` succeeds only on a string of two or more characters holding an `@`; `HasShardMarkerIffFinds` proves it agrees with the pattern |
| `FileNaming.HasShardMarkerIffFinds` | sdks/java/core/src/main/java/org/apache/beam/sdk/io/TFRecordIO.java:637 | a scan for `@` followed by a digit or `*` finds something exactly when the shard pattern (`@` then one or more digits, or `@` then `*`) has a match |
| `FileNaming.ValidateOutputComponent` | sdks/java/core/src/main/java/org/apache/beam/sdk/io/TFRecordIO.java:639-644 | fails exactly when the component contains an old-style shard pattern (`@N` or `@*`), with the message naming the component |

## Left out

- I/O errors and short writes are left out. The codec reads through `Channels.ByteSource`, whose every read fills the buffer or drains the stream; a channel that returns fewer bytes is modelled only in `ShortReads` (third finding).
- `FrameProperties.ReadFrameRoundTrip` holds only for channels whose every read fills the buffer or drains the stream. Over a channel that returns fewer bytes, `read` fails on a written frame (`ShortReads.ChunkedReadRejectsWrittenFrame`).
- `FrameProperties.ReadAllRoundTrip` holds only for channels whose every read fills the buffer or drains the stream, for the same reason.
- `FrameProperties.EndOfStreamOnlyWhenEmpty` holds only for channels whose every read fills the buffer or drains the stream. Over a channel that returns fewer bytes, "Fewer than 12 bytes" is raised although 12 or more bytes remain.
- The gzip and deflate codecs, and `CompressedSource`'s detection from the extension, are left out. The model names the compression the sink and the source choose, not the compression itself.
- `Checksum.Crc32c` computes CRC-32C bit by bit, standing for Guava's `Hashing.crc32c()`. No property depends on its error-detection strength, so none is proved.
- `TFRecordReader.Reader.ReadNextRecord` keeps `startOfNextRecord` as an unbounded integer, so Java's `long` overflow of the offset is not modelled. Reaching 2^63 bytes would take more than 2^32 records of the largest size.
- `TFRecordReader.Reader.Advance` and `TFRecordCodec.Codec.ReadPrefixFrom` are parts of one Java method each (`readNextRecord` and `read`), split to keep each proof small. The same holds for `TFRecordCodec.Codec.ReadDataFrom` and `TFRecordCodec.Codec.ReadFooterFrom`. Their callers' contracts describe the whole Java methods.
- `FileNaming.LowerChar` and `FileNaming.ToLower` cover ASCII only and assume a default locale in which `'I'` lower-cases to `'i'`. Java's `toLowerCase` follows the default locale: under a Turkish or Azerbaijani locale `'I'` becomes `'ı'`, so the source's `matches` rejects names ending in upper-case `.ZLIB`, which `FileNaming.StemPlusSuffixMatches` accepts. Other non-ASCII case mappings are not modelled either.
- `FileNaming.SourceFor` names the decompression mode. The `FileBasedSource` objects, the file pattern, and the `default` branch of `getSource` are left out; that branch cannot be reached for the four enum values.
- The builders (`Read`, `Write`, `withCompressionType` and so on) are left out. So are display data, validation of file patterns, sinks and sources as pipeline objects, splitting (TFRecord files are not splittable), the `volatile` fields, and the reader's thread-safety. They are configuration or framework code and have no framing logic.
- Fields `startOfRecord` and `startOfNextRecord` are modelled only through `readNextRecord`. `getCurrentOffset` returns `startOfRecord` unchanged, as the source does.

## Findings

| source | as written | input that shows it | evidently intended | confidence | as-written member | corrected member |
|---|---|---|---|---|---|---|
| sdks/java/core/src/main/java/org/apache/beam/sdk/io/TFRecordIO.java:876-883 | the count of the footer read is ignored; the footer buffer is reused across calls, so bytes a short read did not overwrite are still the previous record's footer | two identical records written back to back, with the last 1 to 4 bytes of the stream cut off: `read` returns both records and then null, and reports no error | a footer read that yields fewer than 4 bytes is a failure (a short footer) | not executed | `FooterCheck.StaleFooterAcceptsTruncatedStream` | `FooterCheck.ReadFrameCheckedSound` |
| sdks/java/core/src/main/java/org/apache/beam/sdk/io/TFRecordIO.java:853-855 | `recordLength` adds `HEADER_LEN + data.length + FOOTER_LEN` in `int` arithmetic | a record of 2^31 - 16 bytes: `recordLength` returns -2^31, so `startOfNextRecord` moves backwards | the exact frame size 16 + length, which the offsets need to equal the bytes written | not executed | `FrameProperties.RecordLengthOverflows` | `FrameProperties.FrameEndIsEncodedLength` |
| sdks/java/core/src/main/java/org/apache/beam/sdk/io/TFRecordIO.java:859-874 | the header and the data are each taken with one channel read, and `read` fails unless that read returns the full size; `ReadableByteChannel.read` may return fewer bytes while more remain | a channel that hands over at most 8 bytes per call, holding one written 1-byte record (17 bytes): the header read returns 8 and `read` fails with "Fewer than 12 bytes"; with at most 100 bytes per call, a written 200-byte record fails with "Invalid data" | read until the buffer is full or the stream ends | not executed; which channels return short reads depends on the compression code, which is not part of this model | `ShortReads.ChunkedReadRejectsWrittenFrame` | `Channels.ReadFully` |
