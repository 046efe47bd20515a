# RSocket frame header codec in Dafny

This project models `FrameHeaderFlyweight` of rsocket-java: the codec for the fixed 6-byte frame
header of the RSocket protocol (the Frame Header Format section of the RSocket protocol
specification). A header is a big-endian 32-bit stream id followed by one big-endian 16-bit word.
The top 6 bits of that word are the frame-type code and the low 10 bits are the flags
I (0x200), M (0x100), F (0x80), C (0x40) and N (0x20).

Modules, one per concern:

- `Wrappers` (wrappers.dfy): `Option`, `Result` and `Outcome`. A Java exception becomes an `Err`/`Fail` value.
- `FrameTypes` (frame_types.dfy): the `FrameType` registry, taken as a parameter `Registry<T>`. It holds
  the code of each type, whether the type may carry metadata, and the reverse lookup by code. It also
  names the four constants PAYLOAD, NEXT, COMPLETE and NEXT_COMPLETE. Facts about the registry, such as
  "the lookup of `t`'s code gives `t`" or "the code fits 6 bits", appear only as `requires` of the
  lemmas that need them.
- `ByteBufs` (byte_buf.dfy): the part of Netty's `ByteBuf` the codec uses. The class `ByteBuf` has
  `data` (the bytes up to the writer index), `readerIndex` and `markedReaderIndex`. It offers
  big-endian `int`/`short` reads, writes and in-place sets. Reads throw `IndexOutOfBounds` before
  moving the index when too few bytes are readable.
- `FrameHeader` (frame_header.dfy): the pure part of the codec. It holds the constants, the packing
  of type and flags exactly as `encode` does it, the masking the readers do, the PAYLOAD
  disambiguation, and what each reader returns for given bytes and reader index. It also holds the
  lemmas: round trips, the error conditions, and the exact set of headers `encode` can produce.
- `FrameHeaderFlyweight` (frame_header_flyweight.dfy): the static methods of the class, over a
  `ByteBuf`. Each method's `ensures` ties its result and the buffer's new state to `FrameHeader`.
  The readers mark, move and reset the reader index as the code does. On every throwing path the
  reset is skipped.
- `HeaderFindings` (findings.dfy): two discrepancies, each stated as written beside a corrected definition.
- `FrameHeaderScenarios` (scenarios.dfy): the repository's header tests, written as clients of the
  method contracts. Each postcondition is the test's assertion.

Java `int` is modelled as `bv32` (its bit pattern), `short` as `bv16` and bytes as `bv8`. The
sign extension of a `short` widened to an `int` is written out (`ShortToInt`) and proved harmless
where the code masks it away.

Where the code does something other than what the repository's own tests, comments or the RSocket
protocol specification lead one to expect, the model follows the code:

- Flags wider than 10 bits: the test `typeAndFlagTruncated`
  (rsocket-core/src/test/java/io/rsocket/frame/FrameHeaderFlyweightTest.java:25-35) expects them to be
  truncated and to leave the type alone. The code only masks on reading. `encode` ORs flag bits 10 to
  15 into the type field, so with such flags the type reads back as a different code
  (`TypeCodeAsEncoded`, `UnmaskedFlagsChangeType`). The test passes because SETUP's code is 1.
- Stripping the id: the id is 4 bytes wide (`HEADER_SIZE` at FrameHeaderFlyweight.java:34, the
  `writeInt` at line 59), and the comment on `removeStreamId` (line 90) says it removes the stream id.
  `removeStreamId` skips only 3 bytes.
- Position of the id: in the Frame Header Format of the RSocket protocol specification the stream id
  is the first 4 bytes of a frame. The stream-id editors work at the buffer's reader index instead.
- Error types: the code throws `IllegalStateException` from `encode`,
  `IllegalArgumentException` from `frameType` and `AssertionError` from `ensureFrameType`.
- Cursor after an error: on a throwing `frameType` the reader index is not restored. The same holds
  for `flags` on a buffer with 4 or 5 readable bytes: the skip has happened, and the short read throws.

## Model

| member | source | states |
|---|---|---|
| `ByteBufs.BE32` | rsocket-core/src/main/java/io/rsocket/frame/FrameHeaderFlyweight.java:59 | `writeInt` stores 4 bytes: the first is bits 31–24, the last is bits 7–0 |
| `ByteBufs.BE16` | rsocket-core/src/main/java/io/rsocket/frame/FrameHeaderFlyweight.java:59 | `writeShort` stores 2 bytes: the high byte, then the low byte |
| `ByteBufs.IntAt` | rsocket-core/src/main/java/io/rsocket/frame/FrameHeaderFlyweight.java:70 | the `int` read at an index is the value whose 4 big-endian bytes sit there |
| `ByteBufs.ShortAt` | rsocket-core/src/main/java/io/rsocket/frame/FrameHeaderFlyweight.java:113 | the `short` read at an index is the value whose 2 big-endian bytes sit there |
| `ByteBufs.IntAtBE32` | rsocket-core/src/main/java/io/rsocket/frame/FrameHeaderFlyweight.java:59 | an `int` written at the front reads back |
| `ByteBufs.ShortAtBE16` | rsocket-core/src/main/java/io/rsocket/frame/FrameHeaderFlyweight.java:59 | a `short` written after any prefix reads back at that offset |
| `ByteBufs.IntWritten` | rsocket-core/src/main/java/io/rsocket/frame/FrameHeaderFlyweight.java:71 | `setInt` keeps the length, the new value reads back, and every byte outside the 4 positions is unchanged |
| `ByteBufs.ByteBuf.constructor` | rsocket-core/src/main/java/io/rsocket/frame/FrameHeaderFlyweight.java:59 | a new buffer holds the given bytes, with both indices at 0 |
| `ByteBufs.ByteBuf.Composite` | rsocket-core/src/main/java/io/rsocket/frame/FrameHeaderFlyweight.java:84-86 | the composite's content is the first buffer's readable bytes, then the second's |
| `ByteBufs.ByteBuf.MarkReaderIndex` | rsocket-core/src/main/java/io/rsocket/frame/FrameHeaderFlyweight.java:97 | the mark becomes the reader index |
| `ByteBufs.ByteBuf.ResetReaderIndex` | rsocket-core/src/main/java/io/rsocket/frame/FrameHeaderFlyweight.java:99 | the reader index goes back to the mark |
| `ByteBufs.ByteBuf.SkipBytes` | rsocket-core/src/main/java/io/rsocket/frame/FrameHeaderFlyweight.java:98 | it advances by `n` when `n` bytes are readable, and otherwise throws without moving |
| `ByteBufs.ByteBuf.ReadInt` | rsocket-core/src/main/java/io/rsocket/frame/FrameHeaderFlyweight.java:105 | it reads the `int` at the reader index and advances 4, or throws without moving |
| `ByteBufs.ByteBuf.ReadShort` | rsocket-core/src/main/java/io/rsocket/frame/FrameHeaderFlyweight.java:113 | it reads the `short` at the reader index and advances 2, or throws without moving |
| `ByteBufs.ByteBuf.GetInt` | rsocket-core/src/main/java/io/rsocket/frame/FrameHeaderFlyweight.java:70 | it succeeds exactly when 4 bytes exist at the index, and returns the value whose big-endian bytes they are |
| `ByteBufs.ByteBuf.SetInt` | rsocket-core/src/main/java/io/rsocket/frame/FrameHeaderFlyweight.java:71 | it overwrites 4 bytes in place when they exist, and otherwise throws and changes nothing |
| `ByteBufs.ByteBuf.WriteInt` | rsocket-core/src/main/java/io/rsocket/frame/FrameHeaderFlyweight.java:59 | it appends the 4 big-endian bytes |
| `ByteBufs.ByteBuf.WriteShort` | rsocket-core/src/main/java/io/rsocket/frame/FrameHeaderFlyweight.java:59 | it appends the 2 big-endian bytes |
| `ByteBufs.ByteBuf.Slice` | rsocket-core/src/main/java/io/rsocket/frame/FrameHeaderFlyweight.java:98 | the slice holds the readable bytes and is read from its start |
| `FrameHeader.Size` | rsocket-core/src/main/java/io/rsocket/frame/FrameHeaderFlyweight.java:34 | the header size is the width of an `int` plus the width of a `short` |
| `FrameHeader.ToShort` | rsocket-core/src/main/java/io/rsocket/frame/FrameHeaderFlyweight.java:57 | Java's `(short)` cast keeps a value under 0x10000 and is in general the value modulo 2^16 |
| `FrameHeader.ShortToInt` | rsocket-core/src/main/java/io/rsocket/frame/FrameHeaderFlyweight.java:113 | widening a `short` keeps its 16 bits and fills the upper half with 0 when it is non-negative and with ones when it is negative |
| `FrameHeader.TypeAndFlags` | rsocket-core/src/main/java/io/rsocket/frame/FrameHeaderFlyweight.java:57 | the sign-extended cast word equals `((code << 10) or flags) & 0xFFFF` (bitwise or); with a 6-bit code and 10-bit flags, the type field is the code |
| `FrameHeader.FlagsOf` | rsocket-core/src/main/java/io/rsocket/frame/FrameHeaderFlyweight.java:113-115 | the flags read from a word fit 10 bits and are its low 10 bits, whatever the sign extension |
| `FrameHeader.TypeCodeOf` | rsocket-core/src/main/java/io/rsocket/frame/FrameHeaderFlyweight.java:125-127 | the code read from a word fits 6 bits and is its top 6 bits |
| `FrameHeader.WordFields` | rsocket-core/src/main/java/io/rsocket/frame/FrameHeaderFlyweight.java:125-130 | splitting `readShort() & 0xFFFF` the way `frameType` does gives the same code and flags as the other readers |
| `FrameHeader.TypeAndFlagsFields` | rsocket-core/src/main/java/io/rsocket/frame/FrameHeaderFlyweight.java:57 | a 6-bit code and 10-bit flags both read back from the packed word |
| `FrameHeader.TypeAndFlagsRead` | rsocket-core/src/main/java/io/rsocket/frame/FrameHeaderFlyweight.java:57 | for any flags, the code read back is `(code or (flags >> 10)) & 0x3F` (bitwise or) and the flags read back are `flags & 0x3FF` |
| `FrameHeader.TypeAndFlagsOfWord` | rsocket-core/src/main/java/io/rsocket/frame/FrameHeaderFlyweight.java:57 | any word whose type field holds every bit of the code is packed from the code and the word itself |
| `FrameHeader.HeaderSplit` | rsocket-core/src/main/java/io/rsocket/frame/FrameHeaderFlyweight.java:59 | a 6-byte header is exactly its stream id's bytes followed by its word's bytes |
| `FrameHeader.EncodeHeader` | rsocket-core/src/main/java/io/rsocket/frame/FrameHeaderFlyweight.java:48-60 | it fails, with the metadata error, exactly when the type cannot carry metadata and the raw flags have 0x100; otherwise the result is `Size()` bytes, with the id at 0 and the packed word at 4 |
| `FrameHeader.DecodeType` | rsocket-core/src/main/java/io/rsocket/frame/FrameHeaderFlyweight.java:125-142 | an unknown code is an error naming the code; a known code other than PAYLOAD gives the registry's type; the PAYLOAD code with neither N nor C is the IllegalArgumentException, and otherwise one of NEXT, COMPLETE, NEXT_COMPLETE |
| `FrameHeader.StreamIdAt` | rsocket-core/src/main/java/io/rsocket/frame/FrameHeaderFlyweight.java:103-108 | `streamId` succeeds exactly when 4 bytes are readable, returns the value whose big-endian bytes they are, and otherwise throws IndexOutOfBounds |
| `FrameHeader.FlagsAt` | rsocket-core/src/main/java/io/rsocket/frame/FrameHeaderFlyweight.java:110-116 | `flags` succeeds exactly when 6 bytes are readable; the result is the low 2 bits of byte 4 followed by byte 5; otherwise it throws IndexOutOfBounds |
| `FrameHeader.HasMetadataAt` | rsocket-core/src/main/java/io/rsocket/frame/FrameHeaderFlyweight.java:118-120 | `hasMetadata` succeeds exactly when 6 bytes are readable, and is true exactly when the lowest bit of byte 4 (flag 0x100) is set |
| `FrameHeader.FrameTypeAt` | rsocket-core/src/main/java/io/rsocket/frame/FrameHeaderFlyweight.java:122-148 | `frameType` throws IndexOutOfBounds with fewer than 6 readable bytes; otherwise a registered non-PAYLOAD code in the top 6 bits of byte 4 gives that type |
| `FrameHeader.TypeCheckAt` | rsocket-core/src/main/java/io/rsocket/frame/FrameHeaderFlyweight.java:150-157 | the enabled check passes exactly when `frameType` reads the expected type, fails with the AssertionError on another type, and otherwise fails with `frameType`'s own exception |
| `FrameHeader.FrameTypeCursor` | rsocket-core/src/main/java/io/rsocket/frame/FrameHeaderFlyweight.java:122-148 | after `frameType` the reader index is at most 6 bytes on, and it is back where it started on success |
| `FrameHeader.StreamIdRemoved` | rsocket-core/src/main/java/io/rsocket/frame/FrameHeaderFlyweight.java:98 | the result is the bytes from 3 past the reader index to the end |
| `FrameHeader.StreamIdAppended` | rsocket-core/src/main/java/io/rsocket/frame/FrameHeaderFlyweight.java:82-87 | the result is 4 bytes longer than the body, its id reads back, and the body follows it |
| `FrameHeader.EncodeSucceedsIffMetadataAllowed` | rsocket-core/src/main/java/io/rsocket/frame/FrameHeaderFlyweight.java:53-55 | `encode` succeeds if and only if the type may carry metadata or bit 0x100 of the raw flags is clear; the result is then 6 bytes |
| `FrameHeader.StreamIdRoundTrip` | rsocket-core/src/main/java/io/rsocket/frame/FrameHeaderFlyweight.java:103-108 | `streamId(encode(id, t, f)) == id` |
| `FrameHeader.FlagsRoundTrip` | rsocket-core/src/main/java/io/rsocket/frame/FrameHeaderFlyweight.java:110-120 | `flags(encode(id, t, f)) == f & 0x3FF`, which is `f` when `f < 1024`; `hasMetadata` is bit 0x100 of `f` |
| `FrameHeader.TypeCodeAsEncoded` | rsocket-core/src/main/java/io/rsocket/frame/FrameHeaderFlyweight.java:57 | the code read back from an encoded header is the type's code OR'd with flag bits 10–15 |
| `FrameHeader.FrameTypeRoundTrip` | rsocket-core/src/main/java/io/rsocket/frame/FrameHeaderFlyweight.java:125-127 | for a registered non-payload type and flags under 1024, `frameType(encode(id, t, f)) == t` |
| `FrameHeader.VirtualTypeRoundTrip` | rsocket-core/src/main/java/io/rsocket/frame/FrameHeaderFlyweight.java:129-142 | NEXT, COMPLETE or NEXT_COMPLETE encoded under the PAYLOAD code, with its own N/C bits, reads back as itself |
| `FrameHeader.PayloadEncodedRoundTrip` | rsocket-core/src/main/java/io/rsocket/frame/FrameHeaderFlyweight.java:129-142 | a header encoded as PAYLOAD with flags under 1024 reads back as NEXT_COMPLETE with N and C, COMPLETE with only C, NEXT with only N, and throws the IllegalArgumentException with neither |
| `FrameHeader.PayloadDisambiguation` | rsocket-core/src/main/java/io/rsocket/frame/FrameHeaderFlyweight.java:129-142 | for the PAYLOAD code, each of the following holds in both directions: N and C give NEXT_COMPLETE, only C gives COMPLETE, only N gives NEXT, and neither gives the IllegalArgumentException |
| `FrameHeader.OtherCodes` | rsocket-core/src/main/java/io/rsocket/frame/FrameHeaderFlyweight.java:127 | any code other than PAYLOAD gives the registry's answer, whatever the flags |
| `FrameHeader.PayloadWithoutBitsLeavesCursorMoved` | rsocket-core/src/main/java/io/rsocket/frame/FrameHeaderFlyweight.java:141-145 | a PAYLOAD header without N or C throws and leaves the reader index 6 bytes on |
| `FrameHeader.TypeCheckOfEncoded` | rsocket-core/src/main/java/io/rsocket/frame/FrameHeaderFlyweight.java:150-157 | the type check of a freshly encoded registered non-payload header passes, and the index is restored |
| `FrameHeader.EncodeImage` | rsocket-core/src/main/java/io/rsocket/frame/FrameHeaderFlyweight.java:48-60 | a 6-byte sequence is an output of `encode` for `t` if and only if its type field holds every bit of `t`'s code and its M flag is set only if `t` allows metadata |
| `FrameHeader.HeaderOfIsEncoded` | rsocket-core/src/main/java/io/rsocket/frame/FrameHeaderFlyweight.java:48-60 | every such header is what `encode` returns for its own id, with its whole word passed as flags |
| `FrameHeader.EncodedIsHeaderOf` | rsocket-core/src/main/java/io/rsocket/frame/FrameHeaderFlyweight.java:53-57 | every header `encode` returns for `t` carries all of `t`'s code bits, and an M flag only if `t` allows metadata |
| `FrameHeader.DecodeThenEncode` | rsocket-core/src/main/java/io/rsocket/frame/FrameHeaderFlyweight.java:48-60 | a header carrying exactly `t`'s code is re-encoded from its own id and flags into the same bytes |
| `FrameHeader.RemoveThenAppend` | rsocket-core/src/main/java/io/rsocket/frame/FrameHeaderFlyweight.java:82-101 | `streamId(appendStreamId(removeStreamId(f), id)) == id`, and the result is 1 byte longer than what follows the reader index |
| `FrameHeaderFlyweight.Encode` | rsocket-core/src/main/java/io/rsocket/frame/FrameHeaderFlyweight.java:48-60 | it fails exactly as `EncodeHeader` does; otherwise it returns a fresh buffer holding its 6 bytes, with reader index and mark at 0 |
| `FrameHeaderFlyweight.EncodeStreamZero` | rsocket-core/src/main/java/io/rsocket/frame/FrameHeaderFlyweight.java:43-46 | it is `encode` with stream id 0 |
| `FrameHeaderFlyweight.ReplaceStreamId` | rsocket-core/src/main/java/io/rsocket/frame/FrameHeaderFlyweight.java:68-73 | it returns the old id at the reader index and leaves the new one there; other bytes and both indices are unchanged; with fewer than 4 bytes it throws and changes nothing |
| `FrameHeaderFlyweight.AppendStreamId` | rsocket-core/src/main/java/io/rsocket/frame/FrameHeaderFlyweight.java:82-87 | it returns a fresh buffer holding `BE32(id)` followed by the readable bytes of the argument, with reader index and mark at 0 |
| `FrameHeaderFlyweight.RemoveStreamId` | rsocket-core/src/main/java/io/rsocket/frame/FrameHeaderFlyweight.java:96-101 | it returns a fresh buffer of the bytes from the reader index + 3, read from 0, and restores the index; with fewer than 3 readable bytes it throws |
| `FrameHeaderFlyweight.StreamId` | rsocket-core/src/main/java/io/rsocket/frame/FrameHeaderFlyweight.java:103-108 | it returns the id at the reader index and leaves the bytes and reader index unchanged |
| `FrameHeaderFlyweight.Flags` | rsocket-core/src/main/java/io/rsocket/frame/FrameHeaderFlyweight.java:110-116 | it returns the low 10 bits of the word; the index is unchanged except when 4 or 5 bytes are readable, where it is left 4 on |
| `FrameHeaderFlyweight.HasMetadata` | rsocket-core/src/main/java/io/rsocket/frame/FrameHeaderFlyweight.java:118-120 | it returns whether the flags have bit 0x100, moving the index just as `flags` does |
| `FrameHeaderFlyweight.FrameType` | rsocket-core/src/main/java/io/rsocket/frame/FrameHeaderFlyweight.java:122-148 | it returns the disambiguated type of the header at the reader index; the index is restored on success and left where the exception occurred otherwise |
| `FrameHeaderFlyweight.EnsureFrameType` | rsocket-core/src/main/java/io/rsocket/frame/FrameHeaderFlyweight.java:150-158 | when disabled it does nothing at all; otherwise it throws exactly when `frameType` throws or reads a type other than the expected one, and leaves the mark at the old reader index and the reader index where `frameType` leaves it |
| `HeaderFindings.UnmaskedFlagsChangeType` | rsocket-core/src/main/java/io/rsocket/frame/FrameHeaderFlyweight.java:57 | as written, flag 0x400 with an even code gives a header whose code reads as the next one, and whose flags read 0 |
| `HeaderFindings.MaskedTypeAndFlags` | rsocket-core/src/main/java/io/rsocket/frame/FrameHeaderFlyweight.java:57 | corrected packing: the code and the truncated flags both read back, for any flags |
| `HeaderFindings.MaskedEncodeHeader` | rsocket-core/src/main/java/io/rsocket/frame/FrameHeaderFlyweight.java:48-60 | corrected `encode`: the same metadata error condition, 6 bytes, the id at 0 and the masked word at 4 |
| `HeaderFindings.MaskedEncodeRoundTrip` | rsocket-core/src/test/java/io/rsocket/frame/FrameHeaderFlyweightTest.java:25-35 | with the corrected `encode`, the type, the truncated flags and the id read back for any flags |
| `HeaderFindings.RemoveThenAppendNeverRestores` | rsocket-core/src/main/java/io/rsocket/frame/FrameHeaderFlyweight.java:98 | as written, remove then append never gives back the frame, and the last old-id byte follows the new id |
| `HeaderFindings.StreamIdStripped` | rsocket-core/src/main/java/io/rsocket/frame/FrameHeaderFlyweight.java:96-101 | corrected strip: the old id's bytes followed by the result are the frame from the reader index |
| `HeaderFindings.StripThenAppendRestores` | rsocket-core/src/main/java/io/rsocket/frame/FrameHeaderFlyweight.java:82-101 | with the corrected strip, appending the old id gives back the frame, and any id keeps the body |
| `FrameHeaderScenarios.TypeAndFlag` | rsocket-core/src/test/java/io/rsocket/frame/FrameHeaderFlyweightTest.java:14-23 | flags 0b1110110111 and REQUEST_FNF read back through the buffer methods |
| `FrameHeaderScenarios.TypeAndFlagTruncated` | rsocket-core/src/test/java/io/rsocket/frame/FrameHeaderFlyweightTest.java:25-35 | flags 0b11110110111 read back as their low 10 bits, not as given; SETUP reads back when its code is 1 |
| `FrameHeaderScenarios.ReplaceStreamIdScenario` | rsocket-core/src/test/java/io/rsocket/frame/FrameHeaderFlyweightTest.java:37-45 | replacing id 123 with 321 returns 123, and 321 then reads back |
| `FrameHeaderScenarios.RemoveAndAppendStreamId` | rsocket-core/src/test/java/io/rsocket/frame/FrameHeaderFlyweightTest.java:47-59 | removing the id, then appending 321, gives a frame whose id reads 321 |

## Findings

| source | as written | input that shows it | evidently intended | confidence | as-written member | corrected member |
|---|---|---|---|---|---|---|
| rsocket-core/src/main/java/io/rsocket/frame/FrameHeaderFlyweight.java:57 | flags are OR'd under the code without masking to 10 bits, so bits 10–15 change the type | a type with code 2 and flags 0x400: the header's code reads 3 | the type field holds the code and only the low 10 flag bits are written (what the truncation test expects) | not executed | `HeaderFindings.UnmaskedFlagsChangeType` | `HeaderFindings.MaskedEncodeRoundTrip` |
| rsocket-core/src/main/java/io/rsocket/frame/FrameHeaderFlyweight.java:98 | `removeStreamId` skips 3 bytes of the 4-byte id | any frame of 4 or more bytes: remove then append gives a frame 1 byte longer, with the last old-id byte after the new id | skip the whole id (`Integer.BYTES`) | not executed | `HeaderFindings.RemoveThenAppendNeverRestores` | `HeaderFindings.StripThenAppendRestores` |

The flyweight methods keep the code's behaviour: `Encode` packs with `TypeAndFlags` and
`RemoveStreamId` skips 3 bytes. The corrected definitions `MaskedEncodeHeader` and `StreamIdStripped`
stand beside them, with the intended properties proved.

## Left out

- The `FrameType` registry's own table (`getEncodedType`, `canHaveMetadata`, `fromEncodedType`) is not part of this model. It is a parameter, and a code it rejects is modelled as the error `UnknownEncodedType`.
- `FrameFragmenter` and `FrameReassembler` are not part of this model: they lie outside the header codec.
- The `ByteBufAllocator`, reference counting and `release()`, buffer growth and capacity. The model's capacity is the writer index, so a `getInt`/`setInt` past the writer index but inside the capacity is treated as out of bounds.
- Slices and composites share memory with the buffers they view; the model copies the bytes. A later write through one of them is not seen through the other.
- The JVM system property read at class initialisation. `disableFrameTypeCheck` is a parameter of `EnsureFrameType`.
- Thread safety: the class is documented as single-threaded.
- Exception messages. Each exception is modelled by its kind only.
