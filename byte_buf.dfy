/**
 * The part of a Netty `ByteBuf` the header codec relies on: a byte sequence up to the writer index,
 * a reader index and a marked reader index, with big-endian `int` and `short` access.
 */
module ByteBufs {
  import opened Wrappers

  /** What the buffer throws: Netty's IndexOutOfBoundsException. */
  datatype BufferError = IndexOutOfBounds

  /** The four big-endian bytes of a 32-bit value, as `writeInt`/`setInt` store them. */
  function BE32(x: bv32): (r: seq<bv8>)
    ensures |r| == 4
    ensures r[0] as bv32 == x >> 24 && r[3] as bv32 == x & 0xFF
  {
    [((x >> 24) & 0xFF) as bv8, ((x >> 16) & 0xFF) as bv8, ((x >> 8) & 0xFF) as bv8, (x & 0xFF) as bv8]
  }

  /** The two big-endian bytes of a 16-bit value, as `writeShort` stores them. */
  function BE16(x: bv16): (r: seq<bv8>)
    ensures |r| == 2
    ensures r[0] as bv16 == x >> 8 && r[1] as bv16 == x & 0xFF
  {
    [((x >> 8) & 0xFF) as bv8, (x & 0xFF) as bv8]
  }

  /** The big-endian 32-bit value at index `i`, as `getInt`/`readInt` read it. */
  function IntAt(s: seq<bv8>, i: nat): (v: bv32)
    requires i + 4 <= |s|
    ensures BE32(v) == s[i..i + 4]
  {
    (s[i] as bv32 << 24) | (s[i + 1] as bv32 << 16) | (s[i + 2] as bv32 << 8) | s[i + 3] as bv32
  }

  /** The big-endian 16-bit value at index `i`, as `readShort` reads it. */
  function ShortAt(s: seq<bv8>, i: nat): (v: bv16)
    requires i + 2 <= |s|
    ensures BE16(v) == s[i..i + 2]
  {
    (s[i] as bv16 << 8) | s[i + 1] as bv16
  }

  lemma IntAtBE32(x: bv32, rest: seq<bv8>)
    ensures IntAt(BE32(x) + rest, 0) == x
  {
    assert (BE32(x) + rest)[..4] == BE32(x);
  }

  lemma ShortAtBE16(x: bv16, before: seq<bv8>, rest: seq<bv8>)
    ensures ShortAt(before + BE16(x) + rest, |before|) == x
  {
    assert (before + BE16(x) + rest)[|before|..|before| + 2] == BE16(x);
  }

  /** `s` with the four bytes at `i` overwritten by the big-endian `v`, as `setInt` leaves it. */
  function IntWritten(s: seq<bv8>, i: nat, v: bv32): (r: seq<bv8>)
    requires i + 4 <= |s|
    ensures |r| == |s|
    ensures IntAt(r, i) == v
    ensures forall j :: 0 <= j < |s| && !(i <= j < i + 4) ==> r[j] == s[j]
  {
    var r := s[..i] + BE32(v) + s[i + 4..];
    assert r[i..i + 4] == BE32(v);
    r
  }

  class ByteBuf {
    /** the bytes from index 0 up to the writer index */
    var data: seq<bv8>
    var readerIndex: nat
    var markedReaderIndex: nat

    ghost predicate Valid()
      reads this
    {
      readerIndex <= |data| && markedReaderIndex <= |data|
    }

    /** The number of readable bytes, `writerIndex - readerIndex`. */
    function ReadableBytes(): nat
      reads this
      requires Valid()
    {
      |data| - readerIndex
    }

    /** A fresh buffer holding `bytes`, read from the start. */
    constructor (bytes: seq<bv8>)
      ensures Valid()
      ensures data == bytes && readerIndex == 0 && markedReaderIndex == 0
    {
      data := bytes;
      readerIndex := 0;
      markedReaderIndex := 0;
    }

    /** A composite buffer whose content is the readable bytes of `first` then those of `second`. */
    constructor Composite(first: ByteBuf, second: ByteBuf)
      requires first.Valid() && second.Valid()
      ensures Valid()
      ensures data == first.data[first.readerIndex..] + second.data[second.readerIndex..]
      ensures readerIndex == 0 && markedReaderIndex == 0
    {
      data := first.data[first.readerIndex..] + second.data[second.readerIndex..];
      readerIndex := 0;
      markedReaderIndex := 0;
    }

    method MarkReaderIndex()
      requires Valid()
      modifies this`markedReaderIndex
      ensures Valid()
      ensures markedReaderIndex == readerIndex
    {
      markedReaderIndex := readerIndex;
    }

    method ResetReaderIndex()
      requires Valid()
      modifies this`readerIndex
      ensures Valid()
      ensures readerIndex == markedReaderIndex
    {
      readerIndex := markedReaderIndex;
    }

    /** Advances the reader index by `n`, or throws when fewer than `n` bytes are readable. */
    method SkipBytes(n: nat) returns (r: Outcome<BufferError>)
      requires Valid()
      modifies this`readerIndex
      ensures Valid()
      ensures r.Pass? <==> n <= old(ReadableBytes())
      ensures r == Pass || r == Fail(IndexOutOfBounds)
      ensures readerIndex == if r.Pass? then old(readerIndex) + n else old(readerIndex)
    {
      if n <= |data| - readerIndex {
        readerIndex := readerIndex + n;
        r := Pass;
      } else {
        r := Fail(IndexOutOfBounds);
      }
    }

    /** Reads the big-endian `int` at the reader index and advances past it, or throws. */
    method ReadInt() returns (r: Result<bv32, BufferError>)
      requires Valid()
      modifies this`readerIndex
      ensures Valid()
      ensures r.Ok? <==> 4 <= old(ReadableBytes())
      ensures r.Ok? ==> r.value == IntAt(data, old(readerIndex)) && readerIndex == old(readerIndex) + 4
      ensures r.Err? ==> r.error == IndexOutOfBounds && readerIndex == old(readerIndex)
    {
      if 4 <= |data| - readerIndex {
        r := Ok(IntAt(data, readerIndex));
        readerIndex := readerIndex + 4;
      } else {
        r := Err(IndexOutOfBounds);
      }
    }

    /** Reads the big-endian `short` at the reader index and advances past it, or throws. */
    method ReadShort() returns (r: Result<bv16, BufferError>)
      requires Valid()
      modifies this`readerIndex
      ensures Valid()
      ensures r.Ok? <==> 2 <= old(ReadableBytes())
      ensures r.Ok? ==> r.value == ShortAt(data, old(readerIndex)) && readerIndex == old(readerIndex) + 2
      ensures r.Err? ==> r.error == IndexOutOfBounds && readerIndex == old(readerIndex)
    {
      if 2 <= |data| - readerIndex {
        r := Ok(ShortAt(data, readerIndex));
        readerIndex := readerIndex + 2;
      } else {
        r := Err(IndexOutOfBounds);
      }
    }

    /** The big-endian `int` at absolute index `i`, leaving the indices alone. */
    method GetInt(i: nat) returns (r: Result<bv32, BufferError>)
      ensures r.Ok? <==> i + 4 <= |data|
      ensures r.Ok? ==> BE32(r.value) == data[i..i + 4]
      ensures r.Err? ==> r.error == IndexOutOfBounds
    {
      if i + 4 <= |data| {
        r := Ok(IntAt(data, i));
      } else {
        r := Err(IndexOutOfBounds);
      }
    }

    /** Overwrites the four bytes at absolute index `i` with the big-endian `v`, or throws. */
    method SetInt(i: nat, v: bv32) returns (r: Outcome<BufferError>)
      requires Valid()
      modifies this`data
      ensures Valid()
      ensures r.Pass? <==> i + 4 <= |old(data)|
      ensures data == if r.Pass? then IntWritten(old(data), i, v) else old(data)
    {
      if i + 4 <= |data| {
        data := IntWritten(data, i, v);
        r := Pass;
      } else {
        r := Fail(IndexOutOfBounds);
      }
    }

    /** Appends the big-endian `v` at the writer index. */
    method WriteInt(v: bv32)
      requires Valid()
      modifies this`data
      ensures Valid()
      ensures data == old(data) + BE32(v)
    {
      data := data + BE32(v);
    }

    /** Appends the big-endian `v` at the writer index. */
    method WriteShort(v: bv16)
      requires Valid()
      modifies this`data
      ensures Valid()
      ensures data == old(data) + BE16(v)
    {
      data := data + BE16(v);
    }

    /** A new buffer over the readable bytes, read from its start. */
    method Slice() returns (s: ByteBuf)
      requires Valid()
      ensures fresh(s) && s.Valid()
      ensures s.data == data[readerIndex..] && s.readerIndex == 0 && s.markedReaderIndex == 0
    {
      s := new ByteBuf(data[readerIndex..]);
    }
  }
}
