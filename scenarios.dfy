/**
 * The header tests of the repository, as clients of the flyweight's contracts. Each returns what
 * the test reads back, and its postcondition is the test's assertion.
 */
module FrameHeaderScenarios {
  import opened Wrappers
  import opened FrameTypes
  import opened ByteBufs
  import opened FrameHeader
  import opened FrameHeaderFlyweight

  /** typeAndFlag: flags that fit in 10 bits (0x3B7 is 0b11_1011_0111) and a non-payload type read back unchanged. */
  method TypeAndFlag<T(==)>(reg: Registry<T>, requestFnf: T) returns (flags: Result<bv32, Error>, frameType: Result<T, Error>)
    requires CodeFits(reg, requestFnf) && Registered(reg, requestFnf) && requestFnf != reg.payload
    requires reg.canHaveMetadata(requestFnf)
    ensures flags == Ok(0x3B7)
    ensures frameType == Ok(requestFnf)
  {
    var header := Encode(reg, 0, requestFnf, 0x3B7);
    FlagsRoundTrip(reg, 0, requestFnf, 0x3B7);
    FrameTypeRoundTrip(reg, 0, requestFnf, 0x3B7);
    flags := Flags(header.value);
    frameType := FrameType(reg, header.value);
  }

  /**
   * typeAndFlagTruncated: one flag bit too many (0x7B7 is 0b111_1011_0111) is dropped from the flags. The type still reads
   * back only because the extra bit is already set in the type's code (1, as for SETUP).
   */
  method TypeAndFlagTruncated<T(==)>(reg: Registry<T>, setup: T) returns (flags: Result<bv32, Error>, frameType: Result<T, Error>)
    requires reg.encodedType(setup) == 1 && Registered(reg, setup) && setup != reg.payload
    requires reg.canHaveMetadata(setup)
    ensures flags == Ok(0x7B7 & 0x3FF) && flags != Ok(0x7B7)
    ensures frameType == Ok(setup)
  {
    var header := Encode(reg, 0, setup, 0x7B7);
    FlagsRoundTrip(reg, 0, setup, 0x7B7);
    TypeCodeAsEncoded(reg, 0, setup, 0x7B7);
    WordFields(ShortAt(header.value.data, 4));
    flags := Flags(header.value);
    frameType := FrameType(reg, header.value);
  }

  /** replaceStreamId: the old id is returned and the new one reads back. */
  method ReplaceStreamIdScenario<T>(reg: Registry<T>, setup: T) returns (previous: Result<bv32, Error>, streamId: Result<bv32, Error>)
    ensures previous == Ok(123)
    ensures streamId == Ok(321)
  {
    var frame := Encode(reg, 123, setup, 0);
    previous := ReplaceStreamId(frame.value, 321);
    streamId := StreamId(frame.value);
  }

  /** removeAndAppendStreamId: the appended id reads back from the rebuilt frame. */
  method RemoveAndAppendStreamId<T>(reg: Registry<T>, setup: T) returns (streamId: Result<bv32, Error>)
    ensures streamId == Ok(321)
  {
    var frame := Encode(reg, 123, setup, 0);
    var removed := RemoveStreamId(frame.value);
    var append := AppendStreamId(removed.value, 321);
    streamId := StreamId(append);
  }
}
