/**
  The byte-reader contract that every codec is written against: a cursor
  over one immutable byte source that hands out one primitive at a time.
  The library ships two backends for it (one over an ArrayBuffer view, one
  over a Node Buffer); both are modelled here by the single reader below,
  so they are indistinguishable by construction.
 */
module Streams {

  newtype byte = b: int | 0 <= b < 256

  /** The only failure the core knows: a read needs more bytes than remain. */
  datatype Error = OutOfBounds

  /** Success with a value, or the failure that stopped the decode. */
  datatype Result<+T> = Ok(value: T) | Err(error: Error) {
    predicate IsFailure() {
      Err?
    }

    function PropagateFailure<U>(): Result<U>
      requires Err?
    {
      Err(error)
    }

    function Extract(): T
      requires Ok?
    {
      value
    }
  }

  /** The pure reading of one byte at cursor `off`: the byte and the cursor
      after it, or OutOfBounds when no byte is left. */
  function ReadByte(bytes: seq<byte>, off: nat): Result<(byte, nat)> {
    if off < |bytes| then Ok((bytes[off], off + 1)) else Err(OutOfBounds)
  }

  /** The two's-complement reading of a byte: the one value in -128..127
      that is congruent to the byte modulo 256. */
  function AsInt8(b: byte): (r: int)
    ensures -128 <= r < 128
    ensures (r - b as int) % 256 == 0
  {
    if b < 128 then b as int else b as int - 256
  }

  /** A stateful cursor over one byte source. Only `offset` ever changes,
      and a failed read leaves it where it was. */
  class Reader {
    const bytes: seq<byte>
    var offset: nat

    ghost predicate Valid()
      reads this
    {
      offset <= |bytes|
    }

    constructor (source: seq<byte>)
      ensures bytes == source && offset == 0
      ensures Valid()
    {
      bytes := source;
      offset := 0;
    }

    /** The byte at the cursor as an unsigned value; the cursor moves by one. */
    method ReadUint8() returns (r: Result<int>)
      requires Valid()
      modifies this
      ensures Valid()
      ensures old(offset) < |bytes| ==> r == Ok(bytes[old(offset)] as int) && offset == old(offset) + 1
      ensures |bytes| <= old(offset) ==> r == Err(OutOfBounds) && offset == old(offset)
    {
      if offset < |bytes| {
        r := Ok(bytes[offset] as int);
        offset := offset + 1;
      } else {
        r := Err(OutOfBounds);
      }
    }

    /** The byte at the cursor as a two's-complement value; the cursor moves by one. */
    method ReadInt8() returns (r: Result<int>)
      requires Valid()
      modifies this
      ensures Valid()
      ensures old(offset) < |bytes| ==> r == Ok(AsInt8(bytes[old(offset)])) && offset == old(offset) + 1
      ensures |bytes| <= old(offset) ==> r == Err(OutOfBounds) && offset == old(offset)
    {
      if offset < |bytes| {
        r := Ok(AsInt8(bytes[offset]));
        offset := offset + 1;
      } else {
        r := Err(OutOfBounds);
      }
    }
  }
}
