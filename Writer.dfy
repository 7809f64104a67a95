/**
 * TFRecordWriter: binds an output channel and a fresh codec, then hands every record to
 * TFRecordCodec.write. The channel's contents are always the frames of the records written
 * since the channel was bound, in order.
 */
module TFRecordWriter {
  import opened TFRecordFormat
  import opened Channels
  import opened TFRecordCodec
  import opened FrameProperties
  import opened Sequences

  class Writer {
    var outChannel: ByteSink?
    var codec: Codec?

    /** The records `write` has been given since `prepareWrite`, in order. */
    ghost var Records: seq<seq<bv8>>
    /** What the channel held when `prepareWrite` bound it. */
    ghost var Base: seq<bv8>

    ghost predicate Valid()
      reads this, outChannel, codec
    {
      AllArrays(Records)
      && (outChannel == null <==> codec == null)
      && (outChannel != null ==> outChannel.written == Base + EncodeAll(Records))
      && (codec != null ==> codec.Valid())
    }

    /** `prepareWrite` has bound a channel and a codec. */
    predicate Prepared()
      reads this
    {
      outChannel != null && codec != null
    }

    /** A new writer, not bound to a channel yet. */
    constructor ()
      ensures Valid() && !Prepared() && Records == []
    {
      outChannel, codec := null, null;
      Records, Base := [], [];
    }

    /** `prepareWrite`: binds `channel` and a fresh codec; nothing has been written through them. */
    method PrepareWrite(channel: ByteSink)
      requires Valid()
      modifies this
      ensures Valid() && Prepared()
      ensures outChannel == channel && fresh(codec) && fresh(codec.header) && fresh(codec.footer)
      ensures Records == [] && Base == channel.written
    {
      outChannel := channel;
      codec := new Codec();
      Records, Base := [], channel.written;
      assert EncodeAll(Records) == [];
    }

    /**
     * `write`: appends the frame of `value` to the channel, so that the channel holds the
     * frames of every record written so far and nothing else.
     */
    method Write(value: seq<bv8>)
      requires Valid() && Prepared() && |value| < ArrayLimit
      modifies outChannel, codec.header, codec.footer, this
      ensures Valid() && Prepared()
      ensures outChannel == old(outChannel) && codec == old(codec) && Base == old(Base)
      ensures Records == old(Records) + [value]
      ensures outChannel.written == old(outChannel.written) + EncodeFrame(value)
    {
      codec.Write(outChannel, value);
      EncodeAllAppend(Records, value);
      AppendTwo(Base, EncodeAll(Records), EncodeFrame(value));
      Records := Records + [value];
    }
  }
}
