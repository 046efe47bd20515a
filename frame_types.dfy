/**
 * The frame-type registry as seen by the header codec. Its own table of codes is not part of this
 * model, so the codec takes it as a value: the code of each type, whether the type may carry
 * metadata, the reverse lookup from a wire code, and the four payload-related types that the
 * decoder names directly.
 */
module FrameTypes {
  import opened Wrappers

  datatype Registry<!T> = Registry(
    /** the wire code of a type (`getEncodedType`) */
    encodedType: T -> bv32,
    /** whether the Metadata-present flag is allowed for a type (`canHaveMetadata`) */
    canHaveMetadata: T -> bool,
    /** the type a wire code stands for (`fromEncodedType`); None when the registry rejects the code */
    fromEncodedType: bv32 -> Option<T>,
    /** PAYLOAD: the one wire code shared by the three virtual types below */
    payload: T,
    next: T,
    complete: T,
    nextComplete: T)

  /** The code of `t` fits the 6-bit type field of the header. */
  predicate CodeFits<T>(reg: Registry<T>, t: T)
  {
    reg.encodedType(t) < 64
  }

  /** Looking up the code of `t` gives `t` back: `t` is a real, not a virtual, wire type. */
  predicate Registered<T(==)>(reg: Registry<T>, t: T)
  {
    reg.fromEncodedType(reg.encodedType(t)) == Some(t)
  }

  /** The three virtual types that a PAYLOAD code resolves to, and PAYLOAD itself, are distinct. */
  predicate PayloadTypesDistinct<T(==)>(reg: Registry<T>)
  {
    && reg.next != reg.complete && reg.next != reg.nextComplete && reg.complete != reg.nextComplete
    && reg.payload != reg.next && reg.payload != reg.complete && reg.payload != reg.nextComplete
  }
}
