/** The part of `java.nio.ByteBuffer` the packet framing relies on: a fixed
    array with a position and a limit, `compact()` and `put(ByteBuffer)`. */
module ByteBuffers {
  import opened Numeric

  class ByteBuffer {
    const data: array<byte>
    var position: nat
    var limit: nat

    ghost predicate Valid()
      reads this
    {
      position <= limit <= data.Length
    }

    function Capacity(): nat
    {
      data.Length
    }

    /** The bytes written so far: everything before the position. */
    function Content(): seq<byte>
      reads this, data
      requires Valid()
    {
      data[..position]
    }

    /** `ByteBuffer.allocate(capacity)`: zero-filled, position 0, limit at the capacity. */
    constructor Allocate(capacity: nat)
      ensures Valid() && fresh(data)
      ensures data[..] == seq(capacity, i => 0)
      ensures position == 0 && limit == capacity
    {
      data := new byte[capacity](i => 0);
      position := 0;
      limit := capacity;
    }

    /** `compact()`: moves the bytes between position and limit to the front,
        puts the position after them and the limit at the capacity. */
    method Compact()
      requires Valid()
      modifies this, data
      ensures Valid()
      ensures position == old(limit - position) && limit == data.Length
      ensures data[..] == old(data[position..limit]) + old(data[limit - position..])
    {
      var n := limit - position;
      var i := 0;
      while i < n
        modifies data
        invariant 0 <= i <= n
        invariant data[..i] == old(data[position..position + i])
        invariant data[i..] == old(data[i..])
      {
        data[i] := data[position + i];
        i := i + 1;
      }
      position := n;
      limit := data.Length;
    }

    /** `put(src)`: copies the bytes between src's position and limit to this
        buffer's position, advancing both positions. Java throws a
        `BufferOverflowException` when they do not fit; every caller here
        makes room first. */
    method Put(src: ByteBuffer)
      requires Valid() && src.Valid() && src.data != data
      requires src.limit - src.position <= limit - position
      modifies this, data, src
      ensures Valid() && src.Valid()
      ensures position == old(position + (src.limit - src.position)) && limit == old(limit)
      ensures data[..] == old(data[..position] + src.data[src.position..src.limit]
                              + data[position + (src.limit - src.position)..])
      ensures src.position == src.limit == old(src.limit) && unchanged(src.data)
    {
      var n := src.limit - src.position;
      var i := 0;
      while i < n
        modifies data
        invariant 0 <= i <= n
        invariant data[..position] == old(data[..position])
        invariant data[position..position + i] == old(src.data[src.position..src.position + i])
        invariant data[position + i..] == old(data[position + i..])
      {
        data[position + i] := src.data[src.position + i];
        i := i + 1;
      }
      assert data[..] == data[..position] + data[position..position + n] + data[position + n..];
      position := position + n;
      src.position := src.limit;
    }

    /** `put(bytes)`: copies the bytes to the position and advances it. Java
        throws a `BufferOverflowException` when they do not fit; the one
        caller here copies no more than the room left. */
    method PutBytes(src: seq<byte>)
      requires Valid() && |src| <= limit - position
      modifies this, data
      ensures Valid()
      ensures position == old(position) + |src| && limit == old(limit)
      ensures data[..] == old(data[..position]) + src + old(data[position + |src|..])
    {
      var i := 0;
      while i < |src|
        modifies data
        invariant 0 <= i <= |src|
        invariant data[..position] == old(data[..position])
        invariant data[position..position + i] == src[..i]
        invariant data[position + i..] == old(data[position + i..])
      {
        data[position + i] := src[i];
        i := i + 1;
      }
      assert data[..] == data[..position] + data[position..position + |src|] + data[position + |src|..];
      position := position + |src|;
    }
  }
}
