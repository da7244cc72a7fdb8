/** The per-connection packet queue (protocol/PacketQueue.kt): bytes read from
    the socket accumulate in a `ByteBuffer` that doubles when three quarters
    full and halves, after a packet is taken, when at most a quarter full;
    `consume` hands out the packets in order. */
module PacketQueues {
  import opened Numeric
  import opened Exceptions
  import opened LegacyProtocol
  import opened Packets
  import opened ByteBuffers

  const MINIMUM_BUFFER_SIZE: nat := 256

  /** All the bytes of a sequence of chunks, in order. */
  function Flatten(chunks: seq<seq<byte>>): seq<byte>
  {
    if chunks == [] then [] else chunks[0] + Flatten(chunks[1..])
  }

  // ---------------------------------------------------------------------------
  // Capacity rules: the fill ratio position / capacity against 0.75 and 0.25,
  // stated over the integers

  /** The capacity after `growIfFilled`: doubled once the buffer is three
      quarters full. Afterwards less than three quarters are in use. */
  function GrownCapacity(capacity: nat, position: nat): (c: nat)
    ensures c == capacity || c == 2 * capacity
    ensures c == 2 * capacity <==> 4 * position >= 3 * capacity
    ensures 0 < capacity && position <= capacity ==> 4 * position < 3 * c
  {
    if 4 * position >= 3 * capacity then 2 * capacity else capacity
  }

  /** The capacity after `shrinkIfLow`: halved when at most a quarter is in
      use, with no lower bound. The bytes in use still fit. */
  function ShrunkCapacity(capacity: nat, position: nat): (c: nat)
    ensures c == capacity || c == capacity / 2
    ensures 0 < capacity ==> (c < capacity <==> 4 * position <= capacity)
    ensures position <= capacity ==> position <= c
  {
    if 4 * position <= capacity then capacity / 2 else capacity
  }

  /** There is no floor at the minimum size: a drained buffer of the initial
      size halves to a single byte over eight packets. */
  lemma ShrinkHasNoFloor()
    ensures ShrunkCapacity(MINIMUM_BUFFER_SIZE, 0) == 128
    ensures ShrunkCapacity(ShrunkCapacity(ShrunkCapacity(ShrunkCapacity(
              ShrunkCapacity(ShrunkCapacity(ShrunkCapacity(ShrunkCapacity(
                MINIMUM_BUFFER_SIZE, 0), 0), 0), 0), 0), 0), 0), 0) == 1
  {
  }

  /** `growIfFilled` as written: `biggerBuffer.put(buffer)` copies the bytes
      from the position to the limit (the capacity), so the new buffer holds
      the unused tail of the old one instead of the bytes received. */
  function GrowAsWritten(data: seq<byte>, position: nat): (content: seq<byte>)
    requires position <= |data|
    ensures |content| == |data| - position
  {
    data[position..]
  }

  /** Whenever it grows a non-empty buffer, the written `growIfFilled` keeps
      too few bytes, so the bytes received so far are lost. */
  lemma GrowAsWrittenLosesContent(data: seq<byte>, position: nat)
    requires 0 < position <= |data| && 4 * position >= 3 * |data|
    ensures |GrowAsWritten(data, position)| < position
    ensures GrowAsWritten(data, position) != data[..position]
  {
  }

  /** A concrete case: 192 bytes received in the initial 256-byte buffer
      become the 64 zero bytes that followed them. */
  lemma GrowAsWrittenExample()
    ensures GrowAsWritten(seq(192, i => 1) + seq(64, i => 0), 192) == seq(64, i => 0)
  {
    var data: seq<byte> := seq(192, i => 1) + seq(64, i => 0);
    assert data[192..] == seq(64, i => 0);
  }

  // ---------------------------------------------------------------------------
  // The socket

  /** The read side of the socket (`ByteReadChannel`), as the chunks the peer
      will still deliver; it is closed for reading once they are all read. */
  class ReadChannel {
    var chunks: seq<seq<byte>>

    ghost predicate Valid()
      reads this
    {
      forall i :: 0 <= i < |chunks| ==> chunks[i] != []
    }

    constructor (chunks: seq<seq<byte>>)
      requires forall i :: 0 <= i < |chunks| ==> chunks[i] != []
      ensures Valid() && this.chunks == chunks
    {
      this.chunks := chunks;
    }

    predicate IsClosedForRead()
      reads this
    {
      chunks == []
    }

    /** The bytes still to come. */
    function Pending(): seq<byte>
      reads this
    {
      Flatten(chunks)
    }

    /** `readAvailable(dst)`: -1 once closed; otherwise as much of the next
        chunk as fits between the buffer's position and limit. */
    method ReadAvailable(dst: ByteBuffer) returns (n: int)
      requires Valid() && dst.Valid()
      modifies this, dst, dst.data
      ensures Valid() && dst.Valid() && dst.limit == old(dst.limit)
      ensures old(chunks) == [] ==> n == -1 && chunks == [] && unchanged(dst) && unchanged(dst.data)
      ensures old(chunks) != [] ==>
        n == (if old(dst.limit - dst.position) < old(|chunks[0]|) then old(dst.limit - dst.position) else old(|chunks[0]|))
      ensures dst.Content() + Pending() == old(dst.Content() + Pending())
      ensures |Pending()| == old(|Pending()|) - (if n < 0 then 0 else n)
    {
      if chunks == [] {
        return -1;
      }
      var chunk := chunks[0];
      var room := dst.limit - dst.position;
      n := if room < |chunk| then room else |chunk|;
      ghost var before := dst.Content();
      dst.PutBytes(chunk[..n]);
      assert dst.Content() == dst.data[..][..dst.position] == before + chunk[..n];
      if n == |chunk| {
        chunks := chunks[1..];
      } else {
        assert ([chunk[n..]] + chunks[1..])[1..] == chunks[1..];
        chunks := [chunk[n..]] + chunks[1..];
      }
      assert chunk == chunk[..n] + chunk[n..];
    }
  }

  // ---------------------------------------------------------------------------
  // The queue

  /** What `consume` does to the stream of bytes not yet handed out (the
      buffer's content followed by what the socket will still deliver): the
      first packet and the stream after it, or the failure. A legacy ping is
      returned without being removed, as `RawPacket.from` does not compact
      the buffer on that path. */
  function ConsumeSpec(stream: seq<byte>): (Result<RawPacket>, seq<byte>)
  {
    match Extract(stream)
    case Underflow => (Err(ConnectionClosed), stream)
    case Failed(e) => (Err(e), stream)
    case Legacy(p) => (Ok(p), stream)
    case Framed(p, consumed) => (Ok(p), stream[consumed..])
  }

  /** Consuming a stream that starts with an encoded packet returns that
      packet's id and field bytes and leaves exactly what followed it; a
      stream that ends inside the encoding ends in a closed connection. */
  lemma ConsumeEncodedPacket(packet: Packet, extra: seq<byte>, k: nat)
    requires EncodePacket(packet).Ok?
    ensures EncodeFields(packet.properties).Ok?
    ensures ConsumeSpec(EncodePacket(packet).value + extra)
         == (Ok(RawPacket(packet.id, EncodeFields(packet.properties).value)), extra)
    ensures k < |EncodePacket(packet).value| ==>
      ConsumeSpec(EncodePacket(packet).value[..k]) == (Err(ConnectionClosed), EncodePacket(packet).value[..k])
  {
    PacketRoundTrip(packet, extra, k);
    var enc := EncodePacket(packet).value;
    assert (enc + extra)[|enc|..] == extra;
  }

  /** Once the buffer's content decides the next packet or failure, the bytes
      still to come do not change it: `consume` answers as `RawPacket.from`
      does on the buffer alone. */
  lemma ConsumeDecided(content: seq<byte>, pending: seq<byte>)
    requires Extract(content) != Underflow
    ensures var (r, rest) := ConsumeSpec(content + pending);
      match Extract(content)
      case Failed(e) => r == Err(e) && rest == content + pending
      case Legacy(p) => r == Ok(p) && rest == content + pending
      case Framed(p, consumed) => r == Ok(p) && rest == content[consumed..] + pending
      case Underflow => false
  {
    ExtractExtends(content, pending);
    if Extract(content).Framed? {
      var consumed := Extract(content).consumed;
      assert (content + pending)[consumed..] == content[consumed..] + pending;
    }
  }

  class PacketQueue {
    var buffer: ByteBuffer
    var closed: bool
    const readChannel: ReadChannel
    /** The capacity is 2 to this power: it starts at 2^8 and only doubles or halves. */
    ghost var exponent: nat

    ghost predicate Valid()
      reads this, buffer, readChannel
    {
      buffer.Valid() && buffer.limit == buffer.Capacity() == Pow2(exponent) && readChannel.Valid()
    }

    /** The bytes not yet handed out: the buffer's content, then the socket's. */
    function Stream(): seq<byte>
      reads this, buffer, buffer.data, readChannel
      requires buffer.Valid()
    {
      buffer.Content() + readChannel.Pending()
    }

    constructor (readChannel: ReadChannel)
      requires readChannel.Valid()
      ensures Valid() && !closed && this.readChannel == readChannel
      ensures fresh(buffer) && fresh(buffer.data)
      ensures buffer.Capacity() == MINIMUM_BUFFER_SIZE && buffer.Content() == []
    {
      buffer := new ByteBuffer.Allocate(MINIMUM_BUFFER_SIZE);
      closed := false;
      this.readChannel := readChannel;
      exponent := 8;
      Pow2Values();
    }

    /** `end()`: hands the buffer and the socket over, once. */
    method End() returns (r: Result<(ByteBuffer, ReadChannel)>)
      modifies this
      ensures closed && buffer == old(buffer) && exponent == old(exponent)
      ensures old(closed) ==> r == Err(QueueClosed)
      ensures !old(closed) ==> r == Ok((buffer, readChannel))
    {
      if closed {
        return Err(QueueClosed);
      }
      closed := true;
      return Ok((buffer, readChannel));
    }

    /** Moves the content into a new buffer of the given capacity, as
      `shrinkIfLow` does: flip the old buffer, then put it into the new one. */
    method Reallocate(capacity: nat)
      requires buffer.Valid() && buffer.position <= capacity
      modifies this, buffer
      ensures fresh(buffer) && fresh(buffer.data)
      ensures buffer.Valid() && buffer.Capacity() == buffer.limit == capacity
      ensures buffer.Content() == old(buffer.Content())
      ensures closed == old(closed) && exponent == old(exponent)
    {
      var resized := new ByteBuffer.Allocate(capacity);
      buffer.limit := buffer.position;
      buffer.position := 0;
      resized.Put(buffer);
      assert resized.Content() == resized.data[..][..resized.position];
      buffer := resized;
    }

    /** `growIfFilled`, keeping the bytes received (see `GrowAsWritten` for
        the code as written). Afterwards there is room to read into. */
    method GrowIfFilled()
      requires Valid()
      modifies this, buffer
      ensures Valid() && closed == old(closed)
      ensures buffer.Capacity() == GrownCapacity(old(buffer.Capacity()), old(buffer.position))
      ensures buffer.Content() == old(buffer.Content())
      ensures buffer == old(buffer) || (fresh(buffer) && fresh(buffer.data))
      ensures buffer.position < buffer.limit
    {
      var capacity := buffer.Capacity();
      if 4 * buffer.position < 3 * capacity {
        return;
      }
      Reallocate(2 * capacity);
      exponent := exponent + 1;
    }

    /** `shrinkIfLow`. `consume` calls it only after taking a packet out of
        the buffer, which needs at least two bytes of capacity. */
    method ShrinkIfLow()
      requires Valid() && buffer.Capacity() >= 2
      modifies this, buffer
      ensures Valid() && closed == old(closed)
      ensures buffer.Capacity() == ShrunkCapacity(old(buffer.Capacity()), old(buffer.position))
      ensures buffer.Content() == old(buffer.Content())
      ensures buffer == old(buffer) || (fresh(buffer) && fresh(buffer.data))
    {
      var capacity := buffer.Capacity();
      if 4 * buffer.position > capacity {
        return;
      }
      Reallocate(capacity / 2);
      exponent := exponent - 1;
    }

    /** One pass of the loop in `consume()` over the buffer alone:
        `RawPacket.from`, then `shrinkIfLow()` once a packet was taken. A
        decided answer is the answer for the whole stream; otherwise nothing
        changes. */
    method TakeBuffered() returns (r: Result<Option<RawPacket>>)
      requires Valid() && !closed
      modifies this, buffer, buffer.data
      ensures Valid() && !closed
      ensures buffer == old(buffer) || (fresh(buffer) && fresh(buffer.data))
      ensures r.Err? ==> (Err(r.error), Stream()) == ConsumeSpec(old(Stream()))
      ensures r.Ok? && r.value.Some? ==> (Ok(r.value.value), Stream()) == ConsumeSpec(old(Stream()))
      ensures r == Ok(None) ==> Extract(old(buffer.Content())) == Underflow && Stream() == old(Stream())
    {
      ghost var content := buffer.Content();
      ghost var pending := readChannel.Pending();
      r := From(buffer);
      if r.Err? {
        ConsumeDecided(content, pending);
      } else if r.value.Some? {
        ConsumeDecided(content, pending);
        ShrinkIfLow();
      }
    }

    /** `consume()`: the next packet of the stream, however the socket cuts
        the stream into reads. */
    method Consume() returns (r: Result<RawPacket>)
      requires Valid()
      modifies this, buffer, buffer.data, readChannel
      ensures Valid() && closed == old(closed)
      ensures old(closed) ==> r == Err(QueueClosed) && Stream() == old(Stream())
      ensures !old(closed) ==> (r, Stream()) == ConsumeSpec(old(Stream()))
    {
      if closed {
        return Err(QueueClosed);
      }
      ghost var stream := Stream();
      while true
        invariant Valid() && !closed
        invariant buffer == old(buffer) || (fresh(buffer) && fresh(buffer.data))
        invariant Stream() == stream
        decreases |readChannel.Pending()|
      {
        ghost var content := buffer.Content();
        var packet := TakeBuffered();
        if packet.Err? {
          return Err(packet.error);
        }
        if packet.value.Some? {
          return Ok(packet.value.value);
        }
        if readChannel.IsClosedForRead() {
          assert stream == content;
          return Err(ConnectionClosed);
        }
        GrowIfFilled();
        var n := readChannel.ReadAvailable(buffer);
      }
    }
  }
}
