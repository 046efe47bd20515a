/**
 * The static methods of `FrameHeaderFlyweight` over a buffer. The readers mark the reader index,
 * move it, and reset it; when something throws on the way the reset is skipped. Each method is
 * specified by the pure functions of `FrameHeader` on the buffer's bytes and reader index.
 */
module FrameHeaderFlyweight {
  import opened Wrappers
  import opened FrameTypes
  import opened ByteBufs
  import opened FrameHeader

  /** `encode`: a fresh buffer holding the 6-byte header, or the metadata-flag error. */
  method Encode<T>(reg: Registry<T>, streamId: bv32, frameType: T, flags: bv32) returns (r: Result<ByteBuf, Error>)
    ensures r.Err? <==> EncodeHeader(reg, streamId, frameType, flags).Err?
    ensures r.Err? ==> r.error == BadMetadataFlag
    ensures r.Ok? ==> fresh(r.value) && r.value.Valid() && r.value.readerIndex == 0 && r.value.markedReaderIndex == 0
    ensures r.Ok? ==> r.value.data == EncodeHeader(reg, streamId, frameType, flags).value
  {
    if !reg.canHaveMetadata(frameType) && (flags & FlagsM) == FlagsM {
      return Err(BadMetadataFlag);
    }
    var typeAndFlags := TypeAndFlags(reg.encodedType(frameType), flags);
    var buf := new ByteBuf([]);
    buf.WriteInt(streamId);
    buf.WriteShort(typeAndFlags);
    r := Ok(buf);
  }

  /** `encodeStreamZero`: `encode` with stream id 0. */
  method EncodeStreamZero<T>(reg: Registry<T>, frameType: T, flags: bv32) returns (r: Result<ByteBuf, Error>)
    ensures r.Err? <==> EncodeHeader(reg, 0, frameType, flags).Err?
    ensures r.Err? ==> r.error == BadMetadataFlag
    ensures r.Ok? ==> fresh(r.value) && r.value.Valid() && r.value.readerIndex == 0 && r.value.markedReaderIndex == 0
    ensures r.Ok? ==> r.value.data == EncodeHeader(reg, 0, frameType, flags).value
  {
    r := Encode(reg, 0, frameType, flags);
  }

  /**
   * `replaceStreamId`: overwrites the `int` at the reader index and returns the one it replaced;
   * throws, changing nothing, when fewer than 4 bytes follow the reader index.
   */
  method ReplaceStreamId(buf: ByteBuf, streamId: bv32) returns (r: Result<bv32, Error>)
    requires buf.Valid()
    modifies buf
    ensures buf.Valid()
    ensures r == StreamIdAt(old(buf.data), old(buf.readerIndex))
    ensures buf.data == if r.Ok? then IntWritten(old(buf.data), old(buf.readerIndex), streamId) else old(buf.data)
    ensures buf.readerIndex == old(buf.readerIndex) && buf.markedReaderIndex == old(buf.markedReaderIndex)
  {
    var i := buf.readerIndex;
    var oldStreamId := buf.GetInt(i);
    if oldStreamId.Err? {
      return Err(Buffer(oldStreamId.error));
    }
    IntAtBE32(oldStreamId.value, buf.data[i + 4..]);
    assert buf.data[i..] == BE32(oldStreamId.value) + buf.data[i + 4..];
    var written := buf.SetInt(i, streamId);
    assert written.Pass?;
    r := Ok(oldStreamId.value);
  }

  /** `appendStreamId`: a fresh buffer holding the big-endian id followed by the readable bytes of `buf`. */
  method AppendStreamId(buf: ByteBuf, streamId: bv32) returns (r: ByteBuf)
    requires buf.Valid()
    ensures fresh(r) && r.Valid() && r.readerIndex == 0 && r.markedReaderIndex == 0
    ensures r.data == StreamIdAppended(streamId, buf.data[buf.readerIndex..])
  {
    var prefix := new ByteBuf([]);
    prefix.WriteInt(streamId);
    r := new ByteBuf.Composite(prefix, buf);
  }

  /**
   * `removeStreamId`: a fresh buffer over the bytes from 3 past the reader index, the reader index
   * restored; throws when fewer than 3 bytes are readable.
   */
  method RemoveStreamId(buf: ByteBuf) returns (r: Result<ByteBuf, Error>)
    requires buf.Valid()
    modifies buf
    ensures buf.Valid()
    ensures r.Ok? <==> old(buf.readerIndex) + 3 <= |old(buf.data)|
    ensures r.Err? ==> r.error == Buffer(IndexOutOfBounds)
    ensures r.Ok? ==> fresh(r.value) && r.value.Valid() && r.value.readerIndex == 0 && r.value.markedReaderIndex == 0
    ensures r.Ok? ==> r.value.data == StreamIdRemoved(old(buf.data), old(buf.readerIndex))
    ensures buf.data == old(buf.data) && buf.readerIndex == old(buf.readerIndex)
    ensures buf.markedReaderIndex == old(buf.readerIndex)
  {
    buf.MarkReaderIndex();
    var skipped := buf.SkipBytes(3);
    if skipped.Fail? {
      return Err(Buffer(skipped.error));
    }
    var slice := buf.Slice();
    buf.ResetReaderIndex();
    r := Ok(slice);
  }

  /** `streamId`: the `int` at the reader index, leaving the bytes and the reader index as they were. */
  method StreamId(buf: ByteBuf) returns (r: Result<bv32, Error>)
    requires buf.Valid()
    modifies buf
    ensures buf.Valid()
    ensures r == StreamIdAt(old(buf.data), old(buf.readerIndex))
    ensures buf.data == old(buf.data) && buf.readerIndex == old(buf.readerIndex)
    ensures buf.markedReaderIndex == old(buf.readerIndex)
  {
    buf.MarkReaderIndex();
    var streamId := buf.ReadInt();
    if streamId.Err? {
      return Err(Buffer(streamId.error));
    }
    buf.ResetReaderIndex();
    r := Ok(streamId.value);
  }

  /**
   * `flags`: the low 10 bits of the word after the stream id. When the stream id is readable but
   * the word is not, the skip has happened and the reset has not: the reader index is left 4 bytes on.
   */
  method Flags(buf: ByteBuf) returns (r: Result<bv32, Error>)
    requires buf.Valid()
    modifies buf
    ensures buf.Valid()
    ensures r == FlagsAt(old(buf.data), old(buf.readerIndex))
    ensures buf.data == old(buf.data) && buf.markedReaderIndex == old(buf.readerIndex)
    ensures buf.readerIndex == if 4 <= old(buf.ReadableBytes()) < HeaderSize then old(buf.readerIndex) + 4 else old(buf.readerIndex)
  {
    buf.MarkReaderIndex();
    var skipped := buf.SkipBytes(4);
    if skipped.Fail? {
      return Err(Buffer(skipped.error));
    }
    var typeAndFlags := buf.ReadShort();
    if typeAndFlags.Err? {
      return Err(Buffer(typeAndFlags.error));
    }
    buf.ResetReaderIndex();
    r := Ok(ShortToInt(typeAndFlags.value) & FrameFlagsMask);
  }

  /** `hasMetadata`: whether `flags` carries the Metadata-present bit, moving the reader index as `flags` does. */
  method HasMetadata(buf: ByteBuf) returns (r: Result<bool, Error>)
    requires buf.Valid()
    modifies buf
    ensures buf.Valid()
    ensures r == HasMetadataAt(old(buf.data), old(buf.readerIndex))
    ensures buf.data == old(buf.data) && buf.markedReaderIndex == old(buf.readerIndex)
    ensures buf.readerIndex == if 4 <= old(buf.ReadableBytes()) < HeaderSize then old(buf.readerIndex) + 4 else old(buf.readerIndex)
  {
    var flags := Flags(buf);
    if flags.Err? {
      return Err(flags.error);
    }
    r := Ok((flags.value & FlagsM) == FlagsM);
  }

  /**
   * `frameType`: the type of the header at the reader index. On success the reader index is
   * restored; on any exception it stays where the exception left it (`FrameTypeCursor`).
   */
  method FrameType<T(==)>(reg: Registry<T>, buf: ByteBuf) returns (r: Result<T, Error>)
    requires buf.Valid()
    modifies buf
    ensures buf.Valid()
    ensures r == FrameTypeAt(reg, old(buf.data), old(buf.readerIndex))
    ensures buf.data == old(buf.data) && buf.markedReaderIndex == old(buf.readerIndex)
    ensures buf.readerIndex == FrameTypeCursor(reg, old(buf.data), old(buf.readerIndex))
  {
    buf.MarkReaderIndex();
    var skipped := buf.SkipBytes(4);
    if skipped.Fail? {
      return Err(Buffer(skipped.error));
    }
    var typeAndFlags := buf.ReadShort();
    if typeAndFlags.Err? {
      return Err(Buffer(typeAndFlags.error));
    }
    var result := DecodeType(reg, typeAndFlags.value);
    if result.Err? {
      return result;
    }
    buf.ResetReaderIndex();
    r := result;
  }

  /**
   * `ensureFrameType`: with the check disabled, does nothing; otherwise throws what `frameType`
   * throws, or the assertion error when the frame's type is not `frameType`.
   */
  method EnsureFrameType<T(==)>(reg: Registry<T>, disableFrameTypeCheck: bool, frameType: T, buf: ByteBuf)
    returns (r: Outcome<Error>)
    requires buf.Valid()
    modifies buf
    ensures buf.Valid() && buf.data == old(buf.data)
    ensures disableFrameTypeCheck ==> r.Pass? && unchanged(buf)
    ensures !disableFrameTypeCheck ==> r == TypeCheckAt(reg, frameType, old(buf.data), old(buf.readerIndex))
    ensures !disableFrameTypeCheck ==> buf.readerIndex == FrameTypeCursor(reg, old(buf.data), old(buf.readerIndex))
    ensures !disableFrameTypeCheck ==> buf.markedReaderIndex == old(buf.readerIndex)
  {
    if !disableFrameTypeCheck {
      var typeInFrame := FrameType(reg, buf);
      if typeInFrame.Err? {
        return Fail(typeInFrame.error);
      }
      if typeInFrame.value != frameType {
        return Fail(UnexpectedFrameType);
      }
    }
    r := Pass;
  }
}
