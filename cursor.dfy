/** The read side of `java.nio.ByteBuffer` that the parser walks: a fixed
    backing sequence and a position that every read advances. */
module Cursor {
  import opened Wrappers
  import opened Bytes

  class ByteCursor {
    const data: seq<byte>
    var position: nat

    ghost predicate Valid()
      reads this
    {
      position <= |data|
    }

    /** `remaining()`. */
    function Remaining(): nat
      reads this
      requires Valid()
    {
      |data| - position
    }

    /** The bytes still to be read. */
    ghost function Rest(): (s: seq<byte>)
      reads this
      requires Valid()
      ensures |s| == Remaining()
    {
      data[position..]
    }

    /** `ByteBuffer.wrap(bytes)`. */
    constructor Wrap(bytes: seq<byte>)
      ensures Valid() && data == bytes && position == 0
    {
      data := bytes;
      position := 0;
    }

    /** `get()`: the next byte, or `None` where the buffer would throw
        `BufferUnderflowException`. */
    method Get() returns (b: Option<byte>)
      requires Valid()
      modifies this
      ensures Valid()
      ensures old(position) < |data| ==>
                b == Some(data[old(position)]) && position == old(position) + 1
      ensures old(position) == |data| ==> b == None && position == old(position)
    {
      if position < |data| {
        b := Some(data[position]);
        position := position + 1;
      } else {
        b := None;
      }
    }

    /** `get(dst)` into a destination of size `n`, which the caller sizes so
        that it never exceeds what remains. */
    method GetBytes(n: nat) returns (bytes: seq<byte>)
      requires Valid() && n <= Remaining()
      modifies this
      ensures Valid()
      ensures bytes == old(Rest())[..n] && position == old(position) + n
    {
      bytes := data[position..position + n];
      position := position + n;
    }
  }
}
