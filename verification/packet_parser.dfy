/** `readPacket` (protocol/packet/PacketParser.kt): the list-based framing,
    trying the legacy ping first and then `VarInt length | VarInt id | payload`.
    It reads with `Field.VarInt.parse` as written, so the end of the data is
    met with an index error rather than an incomplete buffer. */
module PacketParser {
  import opened Numeric
  import opened Exceptions
  import opened Field
  import opened LegacyProtocol
  import opened Packets

  /** `buffer.slice(from..<to)`: an empty range gives the empty list, and a
      range ending past the data throws. */
  function Slice(buffer: seq<byte>, from: nat, to: int): (r: Result<seq<byte>>)
    requires from <= |buffer|
    ensures r.Ok? <==> to <= from || to <= |buffer|
    ensures r.Ok? ==> |r.value| == (if to <= from then 0 else to - from)
    ensures r.Ok? && from < to ==> r.value == buffer[from..to]
    ensures r.Err? ==> r.error == IndexOutOfBounds
  {
    if to <= from then Ok([])
    else if to > |buffer| then Err(IndexOutOfBounds)
    else Ok(buffer[from..to])
  }

  /** `readPacket(buffer)`: `Ok(None)` for an incomplete buffer, the packet
      when there is one, and any other failure passed on. The legacy ping is
      recognised in its documented direction. */
  function ReadPacket(buffer: seq<byte>): Result<Option<RawPacket>>
  {
    match ParseLegacyPing(buffer)
    case Err(_) => Ok(None)   // the legacy parser fails only with an incomplete buffer
    case Ok(Some(ping)) => Ok(Some(RawPacket(LEGACY_PACKET_ID, ping.payload)))
    case Ok(None) =>
      match VarIntAt(buffer, 0)
      case Err(IncompleteBuffer) => Ok(None)
      case Err(e) => Err(e)
      case Ok(Parsed(payloadLength, lengthOfLength)) =>
        ReadVarIntInside(buffer, 0, 0, 0);
        match VarIntAt(buffer, lengthOfLength)
        case Err(IncompleteBuffer) => Ok(None)
        case Err(e) => Err(e)
        case Ok(Parsed(id, afterId)) =>
          ReadVarIntInside(buffer, lengthOfLength, 0, 0);
          var totalPacketLength := Wrap32(payloadLength + lengthOfLength);
          match Slice(buffer, afterId, totalPacketLength)
          case Err(e) => Err(e)
          case Ok(payload) => Ok(Some(RawPacket(id, payload)))
  }

  /** Null is returned only for an incomplete legacy ping: the VarInt reads
      start inside the data, where the written decoder never reports an
      incomplete buffer. */
  lemma ReadPacketNullOnlyForPartialPing(buffer: seq<byte>)
    ensures ReadPacket(buffer) == Ok(None) <==> ParseLegacyPing(buffer) == Err(IncompleteBuffer)
    ensures ReadPacket(buffer) == Ok(None) ==> HasSignature(buffer)
  {
    LegacyPingOutcomes(buffer);
    ReadVarIntInside(buffer, 0, 0, 0);
    if VarIntAt(buffer, 0).Ok? {
      ReadVarIntInside(buffer, VarIntAt(buffer, 0).value.offset, 0, 0);
    }
  }

  /** The only failures that escape: a VarInt too big, or an index past the data. */
  lemma ReadPacketErrors(buffer: seq<byte>)
    ensures ReadPacket(buffer).Err? ==>
      ReadPacket(buffer).error == IndexOutOfBounds || ReadPacket(buffer).error == InvalidData("VarInt is too big")
  {
    ReadVarIntInside(buffer, 0, 0, 0);
    if VarIntAt(buffer, 0).Ok? {
      ReadVarIntInside(buffer, VarIntAt(buffer, 0).value.offset, 0, 0);
    }
  }

  /** The standard path in detail: the id is the second VarInt, and when the
      declared length n does not overflow, the payload is the bytes after the
      id up to n plus the length prefix, n less the id's VarInt in length. */
  lemma ReadPacketLayout(buffer: seq<byte>)
    ensures ReadPacket(buffer).Ok? && ReadPacket(buffer).value.Some? && !HasSignature(buffer) ==>
      var p := ReadPacket(buffer).value.value;
      VarIntAt(buffer, 0).Ok?
      && var Parsed(n, lengthOfLength) := VarIntAt(buffer, 0).value;
      VarIntAt(buffer, lengthOfLength).Ok?
      && var Parsed(id, afterId) := VarIntAt(buffer, lengthOfLength).value;
      p.id == id
      && (n + lengthOfLength <= INT_MAX && n > afterId - lengthOfLength ==>
            |p.payload| == n - (afterId - lengthOfLength) && p.payload == buffer[afterId..n + lengthOfLength])
      && (n <= afterId - lengthOfLength ==> p.payload == [])
  {
    LegacyPingOutcomes(buffer);
  }

  /** The legacy ping comes first: a ping is returned as packet 0xFE with its
      payload, whatever follows it. */
  lemma ReadPacketLegacyRoundTrip(payload: seq<byte>, rest: seq<byte>)
    requires |payload| < 0x1_0000
    ensures ReadPacket(EncodeLegacyPing(payload) + rest) == Ok(Some(RawPacket(LEGACY_PACKET_ID, payload)))
  {
    LegacyPingRoundTrip(payload, rest, 0);
  }

  /** The two VarInts of a frame as the written decoder reads them: the
      declared size and the id once they are all there, an index error at
      whichever of them is cut short. */
  lemma FrameVarInts(id: int32, body: seq<byte>, buffer: seq<byte>)
    requires |VarIntBytes(id)| + |body| <= MAX_PACKET_SIZE
    ensures var size: int32 := |VarIntBytes(id)| + |body|;
      var ks := |VarIntBytes(size)|;
      var header := VarIntBytes(size) + VarIntBytes(id);
      (header <= buffer ==>
         VarIntAt(buffer, 0) == Ok(Parsed(size, ks))
         && VarIntAt(buffer, ks) == Ok(Parsed(id, |header|)))
      && (buffer < header ==>
         VarIntAt(buffer, 0) == Err(IndexOutOfBounds)
         || (VarIntAt(buffer, 0) == Ok(Parsed(size, ks)) && VarIntAt(buffer, ks) == Err(IndexOutOfBounds)))
  {
    var size := |VarIntBytes(id)| + |body|;
    var sizeBytes, idBytes := VarIntBytes(size), VarIntBytes(id);
    var header := sizeBytes + idBytes;
    var ks := |sizeBytes|;
    if |buffer| < ks && buffer < header {
      assert buffer[0..] < sizeBytes;
      VarIntPastTheEnd(size, buffer, 0);
    } else if header <= buffer || buffer < header {
      assert buffer[0..ks] == sizeBytes;
      assert sizeBytes <= buffer[0..];
      VarIntRoundTrip(size, buffer, 0);
      if header <= buffer {
        assert buffer[ks..ks + |idBytes|] == idBytes;
        assert idBytes <= buffer[ks..];
        VarIntRoundTrip(id, buffer, ks);
      } else {
        assert buffer[ks..] < idBytes;
        VarIntPastTheEnd(id, buffer, ks);
      }
    }
  }

  /** Round trip: a frame followed by anything reads back its id and body. */
  lemma ReadPacketRoundTrip(id: int32, body: seq<byte>, extra: seq<byte>)
    requires |VarIntBytes(id)| + |body| <= MAX_PACKET_SIZE
    ensures ReadPacket(Frame(id, body) + extra) == Ok(Some(RawPacket(id, body)))
  {
    var size := |VarIntBytes(id)| + |body|;
    var header := VarIntBytes(size) + VarIntBytes(id);
    var buffer := Frame(id, body) + extra;
    assert buffer == header + (body + extra);
    FrameIsNotLegacy(id, body);
    LegacyPingExtends(Frame(id, body), extra);
    FrameVarInts(id, body, buffer);
    VarIntSize(size);
    assert buffer[|header|..|header| + |body|] == body;
  }

  /** Unlike `RawPacket.from`, a declared length of zero is accepted. */
  lemma ReadPacketAcceptsZeroLength()
    ensures ReadPacket([0, 0]) == Ok(Some(RawPacket(0, [])))
    ensures Extract([0, 0]) == Failed(InvalidData("Invalid packet"))
  {
    assert VarIntAt([0, 0], 0) == Ok(Parsed(0, 1));
    assert VarIntAt([0, 0], 1) == Ok(Parsed(0, 2));
    assert VarIntAtGuarded([0, 0], 0) == Ok(Parsed(0, 1));
  }

  /** As written, a frame that has not fully arrived does not give null: every
      proper prefix of a frame, the empty buffer included, ends in an index error. */
  lemma ReadPacketTruncatedFrame(id: int32, body: seq<byte>, k: nat)
    requires |VarIntBytes(id)| + |body| <= MAX_PACKET_SIZE
    requires k < |Frame(id, body)|
    ensures ReadPacket(Frame(id, body)[..k]) == Err(IndexOutOfBounds)
  {
    var size := |VarIntBytes(id)| + |body|;
    var header := VarIntBytes(size) + VarIntBytes(id);
    var bs := Frame(id, body);
    var prefix := bs[..k];
    FrameIsNotLegacy(id, body);
    assert !HasSignature(prefix) by {
      var i :| 0 <= i < |bs| && i < 27 && bs[i] != LEGACY_PACKET_SIGNATURE[i];
      if |prefix| >= 27 {
        assert prefix[..27][i] != LEGACY_PACKET_SIGNATURE[i];
      }
    }
    assert bs == header + body;
    if k < |header| {
      assert prefix < header;
    } else {
      assert header <= prefix;
    }
    FrameVarInts(id, body, prefix);
    VarIntSize(size);
  }
}
