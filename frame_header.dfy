/**
 * The fixed 6-byte frame header of the RSocket protocol as `FrameHeaderFlyweight` packs it: a
 * big-endian 32-bit stream id, then one big-endian 16-bit word whose top 6 bits are the frame-type
 * code and whose low 10 bits are the flags. This module holds the pure bit arithmetic of the codec
 * and, over a byte sequence and a reader index, what each reader of the flyweight returns.
 */
module FrameHeader {
  import opened Wrappers
  import opened FrameTypes
  import opened ByteBufs

  /** (I)gnore: the frame may be ignored when not understood */
  const FlagsI: bv32 := 0x200
  /** (M)etadata: the frame carries metadata */
  const FlagsM: bv32 := 0x100
  /** (F)ollows: more fragments follow this one */
  const FlagsF: bv32 := 0x80
  /** (C)omplete: the stream completes with this frame */
  const FlagsC: bv32 := 0x40
  /** (N)ext: the frame carries a payload */
  const FlagsN: bv32 := 0x20

  const FrameFlagsMask: bv32 := 0x3FF
  const FrameTypeBits: bv32 := 6
  const FrameTypeShift: bv32 := 16 - FrameTypeBits
  /** the width of an `int` plus the width of a `short` */
  const HeaderSize: nat := 4 + 2

  /** What the codec throws. */
  datatype Error =
    | Buffer(cause: BufferError)            // the buffer's IndexOutOfBoundsException
    | BadMetadataFlag                       // IllegalStateException from encode
    | PayloadWithoutNextOrComplete          // IllegalArgumentException from frameType
    | UnknownEncodedType(code: bv32)        // the registry rejects the wire code
    | UnexpectedFrameType                   // AssertionError from ensureFrameType

  /** The header size: one `int` for the stream id and one `short` for type and flags. */
  function Size(): (n: nat)
    ensures n == |BE32(0)| + |BE16(0)|
  {
    HeaderSize
  }

  /** Java's `(short)` cast: the low 16 bits of an `int`. */
  function ToShort(x: bv32): (s: bv16)
    ensures x < 0x1_0000 ==> s as bv32 == x
    ensures s as bv32 == x % 0x1_0000
  {
    (x & 0xFFFF) as bv16
  }

  /** Java's widening of a `short` to an `int`: sign extension (bit 15 copied into bits 16 to 31). */
  function ShortToInt(s: bv16): (r: bv32)
    ensures r & 0xFFFF == s as bv32
    ensures r >> 16 == if s < 0x8000 then 0 else 0xFFFF
  {
    ((s as bv32) ^ 0x8000) - 0x8000
  }

  /**
   * The type-and-flags word as `encode` computes it: `(short) (code << 10 | (short) flags)`.
   * The flags are not masked to 10 bits, so bits 10 to 15 of `flags` land in the type field.
   */
  function TypeAndFlags(code: bv32, flags: bv32): (w: bv16)
    ensures w as bv32 == ((code << FrameTypeShift) | flags) & 0xFFFF
    ensures code < 64 && flags < 0x400 ==> w as bv32 >> FrameTypeShift == code
  {
    ToShort((code << FrameTypeShift) | ShortToInt(ToShort(flags)))
  }

  /** The flags as `flags` reads them from a word: `readShort() & FRAME_FLAGS_MASK`. */
  function FlagsOf(w: bv16): (f: bv32)
    ensures f < 0x400
    ensures f == w as bv32 & FrameFlagsMask
  {
    ShortToInt(w) & FrameFlagsMask
  }

  /** The wire code as `frameType` reads it from a word: `(readShort() & 0xFFFF) >> 10`. */
  function TypeCodeOf(w: bv16): (c: bv32)
    ensures c < 64
    ensures c == w as bv32 >> FrameTypeShift
  {
    (ShortToInt(w) & 0xFFFF) >> FrameTypeShift
  }

  /** The word's two fields, as `frameType` splits its `readShort() & 0xFFFF`. */
  lemma WordFields(w: bv16)
    ensures (ShortToInt(w) & 0xFFFF) >> FrameTypeShift == TypeCodeOf(w)
    ensures (ShortToInt(w) & 0xFFFF) & FrameFlagsMask == FlagsOf(w)
  {
  }

  /** A code of 6 bits and flags of 10 bits read back from the word `encode` packs them into. */
  lemma TypeAndFlagsFields(code: bv32, flags: bv32)
    requires code < 64 && flags < 0x400
    ensures TypeCodeOf(TypeAndFlags(code, flags)) == code
    ensures FlagsOf(TypeAndFlags(code, flags)) == flags
  {
  }

  predicate HasMetadataFlag(flags: bv32)
  {
    flags & FlagsM == FlagsM
  }

  /** Whether the Next and the Complete bits of `flags` are set. */
  predicate NextBit(flags: bv32) { flags & FlagsN == FlagsN }
  predicate CompleteBit(flags: bv32) { flags & FlagsC == FlagsC }

  /**
   * The 6 bytes `encode` writes, or the error it throws when a type that cannot carry metadata is
   * given the Metadata-present bit (tested on the raw `flags`).
   */
  function EncodeHeader<T>(reg: Registry<T>, streamId: bv32, frameType: T, flags: bv32): (r: Result<seq<bv8>, Error>)
    ensures r.Err? <==> !reg.canHaveMetadata(frameType) && HasMetadataFlag(flags)
    ensures r.Err? ==> r.error == BadMetadataFlag
    ensures r.Ok? ==> |r.value| == Size()
    ensures r.Ok? ==> IntAt(r.value, 0) == streamId
    ensures r.Ok? ==> ShortAt(r.value, 4) == TypeAndFlags(reg.encodedType(frameType), flags)
  {
    if !reg.canHaveMetadata(frameType) && HasMetadataFlag(flags) then
      Err(BadMetadataFlag)
    else
      var w := TypeAndFlags(reg.encodedType(frameType), flags);
      IntAtBE32(streamId, BE16(w));
      ShortAtBE16(w, BE32(streamId), []);
      assert BE32(streamId) + BE16(w) + [] == BE32(streamId) + BE16(w);
      Ok(BE32(streamId) + BE16(w))
  }

  /**
   * The frame type of a type-and-flags word: the registry's type for the wire code, except that the
   * PAYLOAD code is resolved by the Next and Complete bits into NEXT_COMPLETE, COMPLETE or NEXT, and
   * is an error when neither is set.
   */
  function DecodeType<T(==)>(reg: Registry<T>, w: bv16): (r: Result<T, Error>)
    ensures reg.fromEncodedType(TypeCodeOf(w)).None? ==> r == Err(UnknownEncodedType(TypeCodeOf(w)))
    ensures reg.fromEncodedType(TypeCodeOf(w)).Some? && reg.fromEncodedType(TypeCodeOf(w)).value != reg.payload
            ==> r == Ok(reg.fromEncodedType(TypeCodeOf(w)).value)
    ensures reg.fromEncodedType(TypeCodeOf(w)) == Some(reg.payload)
            ==> if !NextBit(FlagsOf(w)) && !CompleteBit(FlagsOf(w)) then r == Err(PayloadWithoutNextOrComplete)
                else r.Ok? && r.value in {reg.next, reg.complete, reg.nextComplete}
  {
    var code := TypeCodeOf(w);
    match reg.fromEncodedType(code)
    case None => Err(UnknownEncodedType(code))
    case Some(result) =>
      if result == reg.payload then
        var flags := FlagsOf(w);
        var complete := CompleteBit(flags);
        var next := NextBit(flags);
        if next && complete then Ok(reg.nextComplete)
        else if complete then Ok(reg.complete)
        else if next then Ok(reg.next)
        else Err(PayloadWithoutNextOrComplete)
      else
        Ok(result)
  }

  // What the readers of the flyweight return for a buffer holding `data` read from index `ri`.

  /** `streamId`: the `int` at the reader index. */
  function StreamIdAt(data: seq<bv8>, ri: nat): (r: Result<bv32, Error>)
    ensures r.Ok? <==> ri + 4 <= |data|
    ensures r.Ok? ==> BE32(r.value) == data[ri..ri + 4]
    ensures r.Err? ==> r.error == Buffer(IndexOutOfBounds)
  {
    if ri + 4 <= |data| then Ok(IntAt(data, ri)) else Err(Buffer(IndexOutOfBounds))
  }

  /** `flags`: the low 10 bits of the `short` 4 bytes past the reader index. */
  function FlagsAt(data: seq<bv8>, ri: nat): (r: Result<bv32, Error>)
    ensures r.Ok? <==> ri + HeaderSize <= |data|
    ensures r.Ok? ==> r.value == ((data[ri + 4] as bv32 & 0x3) << 8) | data[ri + 5] as bv32
    ensures r.Err? ==> r.error == Buffer(IndexOutOfBounds)
  {
    if ri + HeaderSize <= |data| then Ok(FlagsOf(ShortAt(data, ri + 4))) else Err(Buffer(IndexOutOfBounds))
  }

  /** `hasMetadata`: whether those flags carry the Metadata-present bit. */
  function HasMetadataAt(data: seq<bv8>, ri: nat): (r: Result<bool, Error>)
    ensures r.Ok? <==> ri + HeaderSize <= |data|
    ensures r.Ok? ==> (r.value <==> data[ri + 4] & 1 == 1)
    ensures r.Err? ==> r.error == Buffer(IndexOutOfBounds)
  {
    match FlagsAt(data, ri)
    case Ok(f) => Ok(HasMetadataFlag(f))
    case Err(e) => Err(e)
  }

  /** `frameType`: the frame type of the word 4 bytes past the reader index. */
  function FrameTypeAt<T(==)>(reg: Registry<T>, data: seq<bv8>, ri: nat): (r: Result<T, Error>)
    ensures |data| < ri + HeaderSize ==> r == Err(Buffer(IndexOutOfBounds))
    ensures ri + HeaderSize <= |data| ==>
              var found := reg.fromEncodedType((data[ri + 4] >> 2) as bv32);
              found.Some? && found.value != reg.payload ==> r == Ok(found.value)
  {
    if ri + HeaderSize <= |data| then DecodeType(reg, ShortAt(data, ri + 4)) else Err(Buffer(IndexOutOfBounds))
  }

  /**
   * Where `frameType` leaves the reader index: back where it was on success, and wherever
   * the exception caught it otherwise, since the reset is skipped when anything throws.
   */
  function FrameTypeCursor<T(==)>(reg: Registry<T>, data: seq<bv8>, ri: nat): (c: nat)
    ensures ri <= c <= ri + HeaderSize
    ensures FrameTypeAt(reg, data, ri).Ok? ==> c == ri
  {
    if |data| < ri + 4 then ri
    else if |data| < ri + HeaderSize then ri + 4
    else if DecodeType(reg, ShortAt(data, ri + 4)).Err? then ri + HeaderSize
    else ri
  }

  /** `ensureFrameType` with the check enabled: what it throws, if anything. */
  function TypeCheckAt<T(==)>(reg: Registry<T>, expected: T, data: seq<bv8>, ri: nat): (r: Outcome<Error>)
    ensures r.Pass? <==> FrameTypeAt(reg, data, ri) == Ok(expected)
    ensures FrameTypeAt(reg, data, ri).Ok? && r.Fail? ==> r.error == UnexpectedFrameType
    ensures FrameTypeAt(reg, data, ri).Err? ==> r == Fail(FrameTypeAt(reg, data, ri).error)
  {
    match FrameTypeAt(reg, data, ri)
    case Ok(t) => if t == expected then Pass else Fail(UnexpectedFrameType)
    case Err(e) => Fail(e)
  }

  /** `removeStreamId`: the bytes from 3 past the reader index to the end. */
  function StreamIdRemoved(data: seq<bv8>, ri: nat): (r: seq<bv8>)
    requires ri + 3 <= |data|
    ensures |r| == |data| - ri - 3
    ensures forall j :: 0 <= j < |r| ==> r[j] == data[ri + 3 + j]
  {
    data[ri + 3..]
  }

  /** `appendStreamId`: the big-endian id followed by `body`. */
  function StreamIdAppended(streamId: bv32, body: seq<bv8>): (r: seq<bv8>)
    ensures |r| == |body| + 4
    ensures IntAt(r, 0) == streamId
    ensures r[4..] == body
  {
    IntAtBE32(streamId, body);
    BE32(streamId) + body
  }

  // Properties of the codec.

  /** Encoding succeeds exactly when the metadata flag is allowed, and then is 6 bytes long. */
  lemma EncodeSucceedsIffMetadataAllowed<T>(reg: Registry<T>, streamId: bv32, t: T, flags: bv32)
    ensures EncodeHeader(reg, streamId, t, flags).Ok? <==> (reg.canHaveMetadata(t) || flags & 0x100 == 0)
    ensures EncodeHeader(reg, streamId, t, flags).Ok? ==> |EncodeHeader(reg, streamId, t, flags).value| == 6
  {
  }

  /** The stream id reads back. */
  lemma StreamIdRoundTrip<T>(reg: Registry<T>, streamId: bv32, t: T, flags: bv32)
    requires EncodeHeader(reg, streamId, t, flags).Ok?
    ensures StreamIdAt(EncodeHeader(reg, streamId, t, flags).value, 0) == Ok(streamId)
  {
  }

  /** The flags read back truncated to 10 bits; unchanged when they fit. */
  lemma FlagsRoundTrip<T>(reg: Registry<T>, streamId: bv32, t: T, flags: bv32)
    requires EncodeHeader(reg, streamId, t, flags).Ok?
    ensures FlagsAt(EncodeHeader(reg, streamId, t, flags).value, 0) == Ok(flags & 0x3FF)
    ensures flags < 0x400 ==> FlagsAt(EncodeHeader(reg, streamId, t, flags).value, 0) == Ok(flags)
    ensures HasMetadataAt(EncodeHeader(reg, streamId, t, flags).value, 0) == Ok(flags & 0x100 != 0)
  {
  }

  /**
   * The wire code read back is the type's code with bits 10 to 15 of the flags OR'd in: the
   * encoder's missing mask, as written.
   */
  lemma TypeCodeAsEncoded<T>(reg: Registry<T>, streamId: bv32, t: T, flags: bv32)
    requires EncodeHeader(reg, streamId, t, flags).Ok?
    ensures TypeCodeOf(ShortAt(EncodeHeader(reg, streamId, t, flags).value, 4))
            == (reg.encodedType(t) | (flags >> FrameTypeShift)) & 0x3F
  {
  }

  /** A registered non-payload type with flags that fit in 10 bits reads back. */
  lemma FrameTypeRoundTrip<T>(reg: Registry<T>, streamId: bv32, t: T, flags: bv32)
    requires EncodeHeader(reg, streamId, t, flags).Ok?
    requires CodeFits(reg, t) && Registered(reg, t) && t != reg.payload
    requires flags < 0x400
    ensures FrameTypeAt(reg, EncodeHeader(reg, streamId, t, flags).value, 0) == Ok(t)
  {
  }

  /** The Next/Complete bits that stand for one of the three virtual payload types. */
  predicate PayloadBitsFor<T(==)>(reg: Registry<T>, t: T, flags: bv32)
  {
    || (t == reg.nextComplete && NextBit(flags) && CompleteBit(flags))
    || (t == reg.complete && !NextBit(flags) && CompleteBit(flags))
    || (t == reg.next && NextBit(flags) && !CompleteBit(flags))
  }

  /**
   * A virtual payload type, encoded under the PAYLOAD code with its own Next/Complete bits,
   * reads back as itself.
   */
  lemma VirtualTypeRoundTrip<T>(reg: Registry<T>, streamId: bv32, t: T, flags: bv32)
    requires EncodeHeader(reg, streamId, t, flags).Ok?
    requires CodeFits(reg, reg.payload) && Registered(reg, reg.payload)
    requires reg.encodedType(t) == reg.encodedType(reg.payload)
    requires flags < 0x400 && PayloadBitsFor(reg, t, flags)
    ensures FrameTypeAt(reg, EncodeHeader(reg, streamId, t, flags).value, 0) == Ok(t)
  {
    var w := ShortAt(EncodeHeader(reg, streamId, t, flags).value, 4);
    TypeAndFlagsFields(reg.encodedType(t), flags);
    WordFields(w);
  }

  /**
   * A frame encoded under PAYLOAD itself reads back as the virtual type its Next and Complete bits
   * name: N and C give NEXT_COMPLETE, only C gives COMPLETE, only N gives NEXT.
   */
  lemma PayloadEncodedRoundTrip<T>(reg: Registry<T>, streamId: bv32, flags: bv32)
    requires EncodeHeader(reg, streamId, reg.payload, flags).Ok?
    requires CodeFits(reg, reg.payload) && Registered(reg, reg.payload)
    requires flags < 0x400
    ensures NextBit(flags) && CompleteBit(flags) ==>
              FrameTypeAt(reg, EncodeHeader(reg, streamId, reg.payload, flags).value, 0) == Ok(reg.nextComplete)
    ensures !NextBit(flags) && CompleteBit(flags) ==>
              FrameTypeAt(reg, EncodeHeader(reg, streamId, reg.payload, flags).value, 0) == Ok(reg.complete)
    ensures NextBit(flags) && !CompleteBit(flags) ==>
              FrameTypeAt(reg, EncodeHeader(reg, streamId, reg.payload, flags).value, 0) == Ok(reg.next)
    ensures !NextBit(flags) && !CompleteBit(flags) ==>
              FrameTypeAt(reg, EncodeHeader(reg, streamId, reg.payload, flags).value, 0) == Err(PayloadWithoutNextOrComplete)
  {
    var w := ShortAt(EncodeHeader(reg, streamId, reg.payload, flags).value, 4);
    TypeAndFlagsFields(reg.encodedType(reg.payload), flags);
    WordFields(w);
  }

  /** The PAYLOAD code resolves by the Next and Complete bits, each case both ways. */
  lemma PayloadDisambiguation<T>(reg: Registry<T>, w: bv16)
    requires reg.fromEncodedType(TypeCodeOf(w)) == Some(reg.payload)
    requires PayloadTypesDistinct(reg)
    ensures DecodeType(reg, w) == Ok(reg.nextComplete) <==> NextBit(FlagsOf(w)) && CompleteBit(FlagsOf(w))
    ensures DecodeType(reg, w) == Ok(reg.complete) <==> !NextBit(FlagsOf(w)) && CompleteBit(FlagsOf(w))
    ensures DecodeType(reg, w) == Ok(reg.next) <==> NextBit(FlagsOf(w)) && !CompleteBit(FlagsOf(w))
    ensures DecodeType(reg, w) == Err(PayloadWithoutNextOrComplete) <==> FlagsOf(w) & (FlagsN | FlagsC) == 0
  {
  }

  /** Any other code is the registry's answer, whatever the flags. */
  lemma OtherCodes<T>(reg: Registry<T>, w: bv16)
    requires reg.fromEncodedType(TypeCodeOf(w)) != Some(reg.payload)
    ensures reg.fromEncodedType(TypeCodeOf(w)).Some? ==> DecodeType(reg, w) == Ok(reg.fromEncodedType(TypeCodeOf(w)).value)
    ensures reg.fromEncodedType(TypeCodeOf(w)).None? ==> DecodeType(reg, w) == Err(UnknownEncodedType(TypeCodeOf(w)))
  {
  }

  /**
   * A PAYLOAD header with neither Next nor Complete set makes `frameType` throw with the reader
   * index left past the header's 6 bytes; any header it accepts leaves the index where it was.
   */
  lemma PayloadWithoutBitsLeavesCursorMoved<T>(reg: Registry<T>, data: seq<bv8>, ri: nat)
    requires ri + HeaderSize <= |data|
    requires reg.fromEncodedType(TypeCodeOf(ShortAt(data, ri + 4))) == Some(reg.payload)
    requires FlagsOf(ShortAt(data, ri + 4)) & (FlagsN | FlagsC) == 0
    ensures FrameTypeAt(reg, data, ri) == Err(PayloadWithoutNextOrComplete)
    ensures FrameTypeCursor(reg, data, ri) == ri + 6
  {
    WordFields(ShortAt(data, ri + 4));
  }

  /** The type check on a freshly encoded header of a registered non-payload type passes and restores the index. */
  lemma TypeCheckOfEncoded<T>(reg: Registry<T>, streamId: bv32, t: T, flags: bv32)
    requires EncodeHeader(reg, streamId, t, flags).Ok?
    requires CodeFits(reg, t) && Registered(reg, t) && t != reg.payload
    requires flags < 0x400
    ensures TypeCheckAt(reg, t, EncodeHeader(reg, streamId, t, flags).value, 0) == Pass
    ensures FrameTypeCursor(reg, EncodeHeader(reg, streamId, t, flags).value, 0) == 0
  {
    FrameTypeRoundTrip(reg, streamId, t, flags);
  }

  /** The code and flags read back from any word `encode` packs, even with flags wider than 10 bits. */
  lemma TypeAndFlagsRead(code: bv32, flags: bv32)
    ensures TypeCodeOf(TypeAndFlags(code, flags)) == (code | (flags >> FrameTypeShift)) & 0x3F
    ensures FlagsOf(TypeAndFlags(code, flags)) == flags & FrameFlagsMask
  {
  }

  /** A word whose type field holds every bit of `code` is what `encode` packs from `code` and the word itself. */
  lemma TypeAndFlagsOfWord(code: bv32, w: bv16)
    requires code < 64 && TypeCodeOf(w) & code == code
    ensures TypeAndFlags(code, w as bv32) == w
  {
  }

  /** A 6-byte header is its stream id followed by its type-and-flags word. */
  lemma HeaderSplit(h: seq<bv8>)
    requires |h| == HeaderSize
    ensures h == BE32(IntAt(h, 0)) + BE16(ShortAt(h, 4))
  {
    assert h == h[0..4] + h[4..6];
  }

  /**
   * A header that can come out of `encode` for `t`: its type field holds every bit of `t`'s code (the
   * unmasked flags can add more), and the metadata flag is set only if `t` allows it.
   */
  predicate HeaderOf<T>(reg: Registry<T>, t: T, h: seq<bv8>)
    requires |h| == HeaderSize
  {
    && TypeCodeOf(ShortAt(h, 4)) & reg.encodedType(t) == reg.encodedType(t)
    && (HasMetadataFlag(FlagsOf(ShortAt(h, 4))) ==> reg.canHaveMetadata(t))
  }

  /** Bit 0x100 of a word is the M flag of the flags read from it. */
  lemma MetadataBitOfWord(w: bv16)
    ensures HasMetadataFlag(w as bv32) == HasMetadataFlag(FlagsOf(w))
  {
  }

  /** What `encode` returns when the metadata check passes. */
  lemma EncodeHeaderValue<T>(reg: Registry<T>, streamId: bv32, t: T, flags: bv32)
    requires reg.canHaveMetadata(t) || !HasMetadataFlag(flags)
    ensures EncodeHeader(reg, streamId, t, flags) == Ok(BE32(streamId) + BE16(TypeAndFlags(reg.encodedType(t), flags)))
  {
  }

  /** Every header `HeaderOf` describes is produced by `encode`, from its own id and its whole word as flags. */
  lemma HeaderOfIsEncoded<T>(reg: Registry<T>, t: T, h: seq<bv8>)
    requires CodeFits(reg, t)
    requires |h| == HeaderSize && HeaderOf(reg, t, h)
    ensures EncodeHeader(reg, IntAt(h, 0), t, ShortAt(h, 4) as bv32) == Ok(h)
  {
    var code, w := reg.encodedType(t), ShortAt(h, 4);
    MetadataBitOfWord(w);
    TypeAndFlagsOfWord(code, w);
    EncodeHeaderValue(reg, IntAt(h, 0), t, w as bv32);
    HeaderSplit(h);
  }

  /** Every header `encode` produces for `t` is one `HeaderOf` describes. */
  lemma EncodedIsHeaderOf<T>(reg: Registry<T>, streamId: bv32, t: T, flags: bv32)
    requires CodeFits(reg, t)
    requires EncodeHeader(reg, streamId, t, flags).Ok?
    ensures HeaderOf(reg, t, EncodeHeader(reg, streamId, t, flags).value)
  {
    TypeAndFlagsRead(reg.encodedType(t), flags);
  }

  /** `h` is what `encode` returns for `t` with some stream id and some flags. */
  ghost predicate Encodable<T>(reg: Registry<T>, t: T, h: seq<bv8>)
  {
    exists streamId, flags :: EncodeHeader(reg, streamId, t, flags) == Ok(h)
  }

  /** The headers `encode` can produce for `t` are exactly the 6-byte sequences `HeaderOf` describes. */
  lemma EncodeImage<T>(reg: Registry<T>, t: T, h: seq<bv8>)
    requires CodeFits(reg, t)
    requires |h| == HeaderSize
    ensures Encodable(reg, t, h) <==> HeaderOf(reg, t, h)
  {
    if HeaderOf(reg, t, h) {
      HeaderOfIsEncodable(reg, t, h);
    }
    if Encodable(reg, t, h) {
      EncodableIsHeaderOf(reg, t, h);
    }
  }

  lemma HeaderOfIsEncodable<T>(reg: Registry<T>, t: T, h: seq<bv8>)
    requires CodeFits(reg, t)
    requires |h| == HeaderSize && HeaderOf(reg, t, h)
    ensures Encodable(reg, t, h)
  {
    HeaderOfIsEncoded(reg, t, h);
    assert EncodeHeader(reg, IntAt(h, 0), t, ShortAt(h, 4) as bv32) == Ok(h);
  }

  lemma EncodableIsHeaderOf<T>(reg: Registry<T>, t: T, h: seq<bv8>)
    requires CodeFits(reg, t)
    requires |h| == HeaderSize && Encodable(reg, t, h)
    ensures HeaderOf(reg, t, h)
  {
    var streamId, flags :| EncodeHeader(reg, streamId, t, flags) == Ok(h);
    EncodedIsHeaderOf(reg, streamId, t, flags);
  }

  /**
   * A header of a type whose code fills the type field exactly is re-encoded from its own
   * stream id and flags.
   */
  lemma DecodeThenEncode<T>(reg: Registry<T>, t: T, h: seq<bv8>)
    requires CodeFits(reg, t)
    requires |h| == HeaderSize && HeaderOf(reg, t, h) && TypeCodeOf(ShortAt(h, 4)) == reg.encodedType(t)
    ensures EncodeHeader(reg, IntAt(h, 0), t, FlagsOf(ShortAt(h, 4))) == Ok(h)
  {
    var w := ShortAt(h, 4);
    TypeAndFlagsRead(reg.encodedType(t), FlagsOf(w));
    assert TypeAndFlags(reg.encodedType(t), FlagsOf(w)) == w;
    HeaderSplit(h);
  }

  /** `removeStreamId` then `appendStreamId` gives a frame that reads the new id and is one byte longer. */
  lemma RemoveThenAppend(f: seq<bv8>, ri: nat, streamId: bv32)
    requires ri + 3 <= |f|
    ensures StreamIdAt(StreamIdAppended(streamId, StreamIdRemoved(f, ri)), 0) == Ok(streamId)
    ensures |StreamIdAppended(streamId, StreamIdRemoved(f, ri))| == |f| - ri + 1
  {
  }
}
