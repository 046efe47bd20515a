/**
 * Two places where the code does something other than what its own layout evidently intends,
 * each as written (in `FrameHeader`) beside a corrected definition with the intended property.
 */
module HeaderFindings {
  import opened Wrappers
  import opened FrameTypes
  import opened ByteBufs
  import opened FrameHeader

  // 1. `encode` does not mask the flags to 10 bits before OR-ing them under the type code.

  /** As written: flag bit 10 turns an even type code into the next odd one. */
  lemma UnmaskedFlagsChangeType<T>(reg: Registry<T>, streamId: bv32, t: T)
    requires CodeFits(reg, t) && reg.encodedType(t) & 1 == 0
    requires EncodeHeader(reg, streamId, t, 0x400).Ok?
    ensures TypeCodeOf(ShortAt(EncodeHeader(reg, streamId, t, 0x400).value, 4)) == reg.encodedType(t) + 1
    ensures FlagsAt(EncodeHeader(reg, streamId, t, 0x400).value, 0) == Ok(0)
  {
    TypeAndFlagsRead(reg.encodedType(t), 0x400);
  }

  /** Corrected: the type code above the flags truncated to their 10 bits. */
  function MaskedTypeAndFlags(code: bv32, flags: bv32): (w: bv16)
    requires code < 64
    ensures TypeCodeOf(w) == code
    ensures FlagsOf(w) == flags & FrameFlagsMask
  {
    ToShort((code << FrameTypeShift) | (flags & FrameFlagsMask))
  }

  /** Corrected `encode`: the same metadata check, the masked word. */
  function MaskedEncodeHeader<T>(reg: Registry<T>, streamId: bv32, frameType: T, flags: bv32): (r: Result<seq<bv8>, Error>)
    requires CodeFits(reg, frameType)
    ensures r.Err? <==> !reg.canHaveMetadata(frameType) && HasMetadataFlag(flags)
    ensures r.Ok? ==> |r.value| == HeaderSize && IntAt(r.value, 0) == streamId
    ensures r.Ok? ==> ShortAt(r.value, 4) == MaskedTypeAndFlags(reg.encodedType(frameType), flags)
  {
    if !reg.canHaveMetadata(frameType) && HasMetadataFlag(flags) then
      Err(BadMetadataFlag)
    else
      var w := MaskedTypeAndFlags(reg.encodedType(frameType), flags);
      IntAtBE32(streamId, BE16(w));
      ShortAtBE16(w, BE32(streamId), []);
      assert BE32(streamId) + BE16(w) + [] == BE32(streamId) + BE16(w);
      Ok(BE32(streamId) + BE16(w))
  }

  /** Corrected: for any flags, wide or not, the type reads back and the flags read back truncated. */
  lemma MaskedEncodeRoundTrip<T>(reg: Registry<T>, streamId: bv32, t: T, flags: bv32)
    requires CodeFits(reg, t) && Registered(reg, t) && t != reg.payload
    requires MaskedEncodeHeader(reg, streamId, t, flags).Ok?
    ensures FrameTypeAt(reg, MaskedEncodeHeader(reg, streamId, t, flags).value, 0) == Ok(t)
    ensures FlagsAt(MaskedEncodeHeader(reg, streamId, t, flags).value, 0) == Ok(flags & FrameFlagsMask)
    ensures StreamIdAt(MaskedEncodeHeader(reg, streamId, t, flags).value, 0) == Ok(streamId)
  {
    WordFields(ShortAt(MaskedEncodeHeader(reg, streamId, t, flags).value, 4));
  }

  // 2. `removeStreamId` skips 3 bytes, though the stream id is 4 bytes wide.

  /**
   * As written: removing the id and appending any id never gives back the frame; the result is
   * one byte longer and keeps the last byte of the old id right after the new one.
   */
  lemma RemoveThenAppendNeverRestores(f: seq<bv8>, streamId: bv32)
    requires 4 <= |f|
    ensures StreamIdAppended(streamId, StreamIdRemoved(f, 0)) != f
    ensures StreamIdAppended(streamId, StreamIdRemoved(f, 0))[4] == f[3]
  {
    assert |StreamIdAppended(streamId, StreamIdRemoved(f, 0))| == |f| + 1;
  }

  /** Corrected: the bytes after the whole 4-byte id. */
  function StreamIdStripped(data: seq<bv8>, ri: nat): (r: seq<bv8>)
    requires ri + 4 <= |data|
    ensures |r| == |data| - ri - 4
    ensures BE32(IntAt(data, ri)) + r == data[ri..]
  {
    assert data[ri..] == data[ri..ri + 4] + data[ri + 4..];
    data[ri + 4..]
  }

  /** Corrected: strip then append keeps the body, and with the old id gives back the frame itself. */
  lemma StripThenAppendRestores(f: seq<bv8>, ri: nat, streamId: bv32)
    requires ri + 4 <= |f|
    ensures StreamIdAppended(IntAt(f, ri), StreamIdStripped(f, ri)) == f[ri..]
    ensures StreamIdAppended(streamId, StreamIdStripped(f, ri))[4..] == f[ri + 4..]
    ensures |StreamIdAppended(streamId, StreamIdStripped(f, ri))| == |f| - ri
  {
  }
}
