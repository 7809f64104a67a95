/**
 * The byte channels the codec is handed: a readable channel over a fixed byte stream with a
 * read position, and a writable channel that appends what it is given. They stand for the
 * ReadableByteChannel and WritableByteChannel that the file-based source and sink open
 * (and decompress or compress) outside TFRecordIO.
 */
module Channels {
  import opened TFRecordFormat
  import opened Sequences

  /** A readable channel: the whole stream and how much of it has been read. */
  class ByteSource {
    const bytes: seq<bv8>
    var pos: nat

    ghost predicate Valid()
      reads this
    {
      pos <= |bytes|
    }

    /** The bytes not read yet. */
    function Remaining(): seq<bv8>
      reads this
      requires Valid()
    {
      bytes[pos..]
    }

    constructor (contents: seq<bv8>)
      ensures Valid() && bytes == contents && pos == 0
    {
      bytes := contents;
      pos := 0;
    }

    /**
     * `read(buffer)` with the buffer cleared: copies up to `buffer.Length` unread bytes into
     * the front of `buffer`, leaves the rest of `buffer` as it was, and returns the count,
     * or -1 when the stream is exhausted and the buffer has room.
     */
    method Read(buffer: array<bv8>) returns (count: int)
      requires Valid()
      modifies this, buffer
      ensures Valid()
      ensures count == ReadCount(old(Remaining()), buffer.Length)
      ensures var got := if count < 0 then 0 else count;
        pos == old(pos) + got
        && buffer[..got] == old(Remaining())[..got]
        && buffer[got..] == old(buffer[got..])
    {
      count := ReadCount(bytes[pos..], buffer.Length);
      var got := if count < 0 then 0 else count;
      var i := 0;
      while i < got
        modifies buffer
        invariant 0 <= i <= got
        invariant buffer[..i] == bytes[pos..pos + i]
        invariant buffer[got..] == old(buffer[got..])
      {
        buffer[i] := bytes[pos + i];
        i := i + 1;
      }
      pos := pos + got;
    }
  }

  /**
   * A readable channel that hands over at most `chunk` bytes per read, as
   * `ReadableByteChannel.read` allows: at least one byte while bytes remain and the buffer
   * has room, but not necessarily all that fit.
   */
  class ChunkedSource {
    const bytes: seq<bv8>
    const chunk: nat
    var pos: nat

    ghost predicate Valid()
      reads this
    {
      pos <= |bytes| && chunk >= 1
    }

    /** The bytes not read yet. */
    function Remaining(): seq<bv8>
      reads this
      requires Valid()
    {
      bytes[pos..]
    }

    constructor (contents: seq<bv8>, chunk: nat)
      requires chunk >= 1
      ensures Valid() && bytes == contents && this.chunk == chunk && pos == 0
    {
      bytes := contents;
      this.chunk := chunk;
      pos := 0;
    }

    /**
     * `read(buffer)` with the buffer's position at `from`: copies ChunkCount unread bytes to
     * `buffer[from..]` and leaves the rest of `buffer` as it was.
     */
    method ReadInto(buffer: array<bv8>, from: nat) returns (count: int)
      requires Valid() && from <= buffer.Length
      modifies this, buffer
      ensures Valid()
      ensures count == ChunkCount(old(Remaining()), buffer.Length - from, chunk)
      ensures var got := if count < 0 then 0 else count;
        pos == old(pos) + got
        && buffer[..from] == old(buffer[..from])
        && buffer[from..from + got] == old(Remaining())[..got]
        && buffer[from + got..] == old(buffer[from + got..])
    {
      count := ChunkCount(bytes[pos..], buffer.Length - from, chunk);
      var got := if count < 0 then 0 else count;
      var i := 0;
      while i < got
        modifies buffer
        invariant 0 <= i <= got
        invariant buffer[..from] == old(buffer[..from])
        invariant buffer[from..from + i] == bytes[pos..pos + i]
        invariant buffer[from + got..] == old(buffer[from + got..])
      {
        buffer[from + i] := bytes[pos + i];
        assert buffer[from..from + i + 1] == buffer[from..from + i] + [bytes[pos + i]];
        assert bytes[pos..pos + i + 1] == bytes[pos..pos + i] + [bytes[pos + i]];
        i := i + 1;
      }
      TakeOfDrop(bytes, pos, got);
      pos := pos + got;
    }
  }

  /**
   * The read `read` evidently needs: reads until the buffer is full or the stream ends.
   * Over a channel that hands over bytes in chunks it returns exactly what one read of
   * ByteSource returns: ReadCount of what was left, with those bytes at the buffer's front.
   */
  method ReadFully(source: ChunkedSource, buffer: array<bv8>) returns (count: int)
    requires source.Valid()
    modifies source, buffer
    ensures source.Valid()
    ensures count == ReadCount(old(source.Remaining()), buffer.Length)
    ensures var got := if count < 0 then 0 else count;
      source.pos == old(source.pos) + got
      && buffer[..got] == old(source.Remaining())[..got]
      && buffer[got..] == old(buffer[got..])
  {
    ghost var available := source.Remaining();
    var filled := 0;
    var ended := false;
    while filled < buffer.Length && !ended
      invariant source.Valid()
      invariant filled <= buffer.Length && filled <= |available|
      invariant source.pos == old(source.pos) + filled
      invariant source.Remaining() == available[filled..]
      invariant buffer[..filled] == available[..filled]
      invariant buffer[filled..] == old(buffer[filled..])
      invariant ended ==> filled == |available|
      decreases buffer.Length - filled, if ended then 0 else 1
    {
      var n := source.ReadInto(buffer, filled);
      if n < 0 {
        ended := true;
      } else {
        TakeOfDrop(available, filled, n);
        TakeJoin(available, filled, filled + n);
        DropOfDrop(source.bytes, old(source.pos), filled + n);
        assert buffer[..filled + n] == buffer[..filled] + buffer[filled..filled + n];
        filled := filled + n;
      }
    }
    count := if filled == 0 && buffer.Length > 0 then -1 else filled;
  }

  /** A writable channel: everything written to it so far. */
  class ByteSink {
    var written: seq<bv8>

    constructor ()
      ensures written == []
    {
      written := [];
    }

    /** `write(buffer)`: appends every remaining byte of the buffer. */
    method Write(buffer: seq<bv8>)
      modifies this
      ensures written == old(written) + buffer
    {
      written := written + buffer;
    }
  }
}
