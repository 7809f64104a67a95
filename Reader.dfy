/**
 * TFRecordReader: the per-file cursor that drives TFRecordCodec.read over one channel and
 * tracks where the current and the next record start.
 */
module TFRecordReader {
  import opened Results
  import opened TFRecordFormat
  import opened Channels
  import opened TFRecordCodec

  /** NoSuchElementException: no record is current. */
  datatype NoSuchElement = NoSuchElement

  class Reader {
    var startOfRecord: int
    var startOfNextRecord: int
    var elementIsPresent: bool
    /** `null` before the first record and after the end of the stream. */
    var currentValue: Option<seq<bv8>>
    var inChannel: ByteSource?
    var codec: Codec?

    /** The records `readNextRecord` has returned, in order. */
    ghost var Records: seq<seq<bv8>>
    /** `startOfNextRecord` when reading started. */
    ghost var Base: int

    ghost predicate Valid()
      reads this, inChannel, codec
    {
      (elementIsPresent ==> currentValue.Some?)
      && AllArrays(Records)
      && startOfNextRecord == Base + RecordsEnd(Records)
      && (inChannel == null <==> codec == null)
      && (inChannel != null ==> inChannel.Valid())
      && (codec != null ==> codec.Valid())
    }

    /** `startReading` has bound a channel and a codec. */
    predicate Started()
      reads this
    {
      inChannel != null && codec != null
    }

    /** A new reader: offsets 0, no current record, no channel yet. */
    constructor ()
      ensures Valid() && !Started()
      ensures startOfRecord == 0 && startOfNextRecord == 0
      ensures !elementIsPresent && currentValue == None && Records == []
    {
      startOfRecord, startOfNextRecord := 0, 0;
      elementIsPresent, currentValue := false, None;
      inChannel, codec := null, null;
      Records, Base := [], 0;
    }

    /** `getCurrentOffset`: the offset of the current record; NoSuchElementException when there is none. */
    method GetCurrentOffset() returns (r: Result<int, NoSuchElement>)
      ensures r.Failure? <==> !elementIsPresent
      ensures r.Success? ==> r.value == startOfRecord
    {
      if !elementIsPresent {
        return Failure(NoSuchElement);
      }
      return Success(startOfRecord);
    }

    /** `getCurrent`: the current record; NoSuchElementException when there is none. */
    method GetCurrent() returns (r: Result<seq<bv8>, NoSuchElement>)
      requires Valid()
      ensures r.Failure? <==> !elementIsPresent
      ensures r.Success? ==> currentValue == Some(r.value)
    {
      if !elementIsPresent {
        return Failure(NoSuchElement);
      }
      return Success(currentValue.value);
    }

    /** `startReading`: binds `channel` and a fresh codec; the offsets stay where they are. */
    method StartReading(channel: ByteSource)
      requires Valid() && channel.Valid()
      modifies this
      ensures Valid() && Started()
      ensures inChannel == channel && fresh(codec) && fresh(codec.header) && fresh(codec.footer)
      ensures codec.footer[..] == [0, 0, 0, 0]
      ensures Records == [] && Base == startOfNextRecord
      ensures startOfRecord == old(startOfRecord) && startOfNextRecord == old(startOfNextRecord)
      ensures elementIsPresent == old(elementIsPresent) && currentValue == old(currentValue)
    {
      inChannel := channel;
      codec := new Codec();
      Records, Base := [], startOfNextRecord;
    }

    /**
     * `readNextRecord`: the current record starts where the previous one ended; on a record,
     * the next one starts `recordLength` bytes later; on end of stream no record is present;
     * a codec failure propagates and leaves the current record and the next offset alone.
     */
    method ReadNextRecord() returns (r: Result<bool, Failure>)
      requires Valid() && Started()
      modifies this, inChannel, codec.header, codec.footer
      ensures Valid() && Started()
      ensures inChannel == old(inChannel) && codec == old(codec) && Base == old(Base)
      ensures startOfRecord == old(startOfNextRecord)
      ensures var step := ReadFrame(old(inChannel.Remaining()), old(codec.footer[..]));
        inChannel.pos == old(inChannel.pos) + step.consumed
        && codec.footer[..] == step.footer
        && match step.outcome
           case Record(data) =>
             r == Success(true) && elementIsPresent && currentValue == Some(data)
             && startOfNextRecord == old(startOfNextRecord) + RecordLength(data)
             && Records == old(Records) + [data]
           case EndOfStream =>
             r == Success(false) && !elementIsPresent && currentValue == None
             && startOfNextRecord == old(startOfNextRecord) && Records == old(Records)
           case Failed(reason) =>
             r == Failure(reason)
             && elementIsPresent == old(elementIsPresent) && currentValue == old(currentValue)
             && startOfNextRecord == old(startOfNextRecord) && Records == old(Records)
    {
      ghost var step := ReadFrame(inChannel.Remaining(), codec.footer[..]);
      startOfRecord := startOfNextRecord;
      var value := codec.Read(inChannel);
      assert value == step.outcome;
      r := Advance(value);
    }

    /** What `readNextRecord` does with the codec's answer. */
    method Advance(value: Outcome) returns (r: Result<bool, Failure>)
      requires Valid() && Started()
      requires value.Record? ==> |value.payload| < ArrayLimit
      requires startOfRecord == startOfNextRecord
      modifies this
      ensures Valid() && Started()
      ensures inChannel == old(inChannel) && codec == old(codec) && Base == old(Base)
      ensures startOfRecord == old(startOfRecord)
      ensures match value
        case Record(data) =>
          r == Success(true) && elementIsPresent && currentValue == Some(data)
          && startOfNextRecord == old(startOfNextRecord) + RecordLength(data)
          && Records == old(Records) + [data]
        case EndOfStream =>
          r == Success(false) && !elementIsPresent && currentValue == None
          && startOfNextRecord == old(startOfNextRecord) && Records == old(Records)
        case Failed(reason) =>
          r == Failure(reason)
          && elementIsPresent == old(elementIsPresent) && currentValue == old(currentValue)
          && startOfNextRecord == old(startOfNextRecord) && Records == old(Records)
    {
      match value
      case Failed(reason) =>
        return Failure(reason);
      case Record(data) =>
        RecordsEndAppend(Records, data);
        currentValue, elementIsPresent, startOfNextRecord, Records :=
          Some(data), true, startOfRecord + RecordLength(data), Records + [data];
        return Success(true);
      case EndOfStream =>
        currentValue, elementIsPresent := None, false;
        return Success(false);
    }
  }
}
