/** Packets of the standard protocol (protocol/packet/Packet.kt): encoding a
    packet as `VarInt length | VarInt id | fields`, and `RawPacket.from`, which
    takes one packet off the front of an accumulation buffer and compacts it. */
module Packets {
  import opened Numeric
  import opened Exceptions
  import opened Field
  import opened LegacyProtocol
  import opened ByteBuffers

  /** The run-time value of one payload property, by its Kotlin class. */
  datatype FieldValue =
    | VarIntValue(v: int32)
    | StringValue(utf8: ByteArray)     // a String, given by its UTF-8 bytes
    | UByteValue(b: byte)
    | UShortValue(s: uint16)
    | ULongValue(ul: uint64)
    | LongValue(l: int64)
    | JsonValue(json: ByteArray)       // a ServerState, given by the UTF-8 bytes of its JSON text
    | NullValue
    | OtherValue(className: string)    // any other class

  /** One primary-constructor property of a payload: its name and its value. */
  datatype Property = Property(name: string, value: FieldValue)

  /** `Packet<P>`: an id and the payload's properties in constructor order. */
  datatype Packet = Packet(id: int32, properties: seq<Property>)

  /** A packet as read off the wire: its id and its undecoded payload bytes. */
  datatype RawPacket = RawPacket(id: int32, payload: seq<byte>)

  // ---------------------------------------------------------------------------
  // Packet.encode

  predicate NoNulls(properties: seq<Property>)
  {
    forall i :: 0 <= i < |properties| ==> !properties[i].value.NullValue?
  }

  /** The name of the first null property, if any. */
  function FirstNull(properties: seq<Property>): (r: Option<string>)
    ensures r.None? <==> NoNulls(properties)
    ensures r.Some? ==> exists i :: 0 <= i < |properties| && properties[i].value.NullValue?
                                    && properties[i].name == r.value
                                    && forall j :: 0 <= j < i ==> !properties[j].value.NullValue?
  {
    if properties == [] then None
    else if properties[0].value.NullValue? then Some(properties[0].name)
    else
      var rest := properties[1..];
      assert forall i :: 0 <= i < |rest| ==> rest[i] == properties[i + 1];
      FirstNull(rest)
  }

  /** The bytes of one non-null field, by its class; any other class cannot be serialised. */
  function EncodeField(value: FieldValue): Result<seq<byte>>
    requires !value.NullValue?
  {
    match value
    case VarIntValue(v) => Ok(VarIntBytes(v))
    case StringValue(utf8) => Ok(EncodeString(utf8))
    case UByteValue(b) => Ok(EncodeNumber(UnsignedByte, b))
    case UShortValue(s) => Ok(EncodeNumber(UnsignedShort, s))
    case ULongValue(ul) => Ok(EncodeNumber(UnsignedLong, ul))
    case LongValue(l) => Ok(EncodeNumber(SignedLong, l))
    case JsonValue(json) => Ok(EncodeString(json))
    case OtherValue(className) => Err(InvalidData("Can't serialize class '" + className + "'"))
  }

  /** The fields' bytes concatenated in order, or the error of the first
      field that cannot be serialised. */
  function EncodeFields(properties: seq<Property>): (r: Result<seq<byte>>)
    requires NoNulls(properties)
    ensures r.Ok? <==> forall i :: 0 <= i < |properties| ==> !properties[i].value.OtherValue?
    ensures r.Err? ==>
      exists i :: 0 <= i < |properties| && properties[i].value.OtherValue?
        && r.error == InvalidData("Can't serialize class '" + properties[i].value.className + "'")
        && forall j :: 0 <= j < i ==> !properties[j].value.OtherValue?
  {
    if properties == [] then Ok([])
    else
      var rest := properties[1..];
      assert forall i :: 0 <= i < |rest| ==> rest[i] == properties[i + 1];
      match EncodeField(properties[0].value)
      case Err(e) => Err(e)
      case Ok(head) =>
        match EncodeFields(rest)
        case Err(e) => Err(e)
        case Ok(tail) => Ok(head + tail)
  }

  /** The largest packet a JVM `ByteBuffer` can hold together with its length prefix. */
  const MAX_PACKET_SIZE: nat := INT_MAX - 5

  /** `Packet.encode`: every property is checked for null before any is
      encoded; then the fields are encoded in order and prefixed by the id and
      by the VarInt length of id and fields together. */
  function EncodePacket(packet: Packet): Result<seq<byte>>
  {
    match FirstNull(packet.properties)
    case Some(name) => Err(IllegalArgument("Packet property " + name + " is null"))
    case None =>
      match EncodeFields(packet.properties)
      case Err(e) => Err(e)
      case Ok(body) =>
        if |body| + |VarIntBytes(packet.id)| > MAX_PACKET_SIZE then Err(IllegalArgument("Packet too large"))
        else Ok(Frame(packet.id, body))
  }

  /** The bytes of a packet on the wire: the VarInt length of id and body,
      the VarInt id, then the body. */
  function Frame(id: int32, body: seq<byte>): seq<byte>
    requires |VarIntBytes(id)| + |body| <= MAX_PACKET_SIZE
  {
    VarIntBytes(|VarIntBytes(id)| + |body|) + VarIntBytes(id) + body
  }

  /** When encoding fails: the first null property is reported, even after an
      unsupported class, and otherwise the first unsupported class is. */
  lemma EncodePacketErrors(packet: Packet)
    ensures !NoNulls(packet.properties) ==>
      exists i :: 0 <= i < |packet.properties| && packet.properties[i].value.NullValue?
        && (forall j :: 0 <= j < i ==> !packet.properties[j].value.NullValue?)
        && EncodePacket(packet) == Err(IllegalArgument("Packet property " + packet.properties[i].name + " is null"))
    ensures NoNulls(packet.properties) && EncodeFields(packet.properties).Err? ==>
      EncodePacket(packet) == Err(EncodeFields(packet.properties).error)
    ensures EncodePacket(packet).Ok? <==>
      NoNulls(packet.properties) && EncodeFields(packet.properties).Ok?
      && |EncodeFields(packet.properties).value| + |VarIntBytes(packet.id)| <= MAX_PACKET_SIZE
  {
    var first := FirstNull(packet.properties);
    if first.Some? {
      var i :| 0 <= i < |packet.properties| && packet.properties[i].value.NullValue?
        && packet.properties[i].name == first.value
        && forall j :: 0 <= j < i ==> !packet.properties[j].value.NullValue?;
      assert EncodePacket(packet) == Err(IllegalArgument("Packet property " + packet.properties[i].name + " is null"));
    }
  }

  // ---------------------------------------------------------------------------
  // Framing: what RawPacket.from finds at the front of the buffer

  /** What `RawPacket.from` makes of the bytes before the buffer's position:
      nothing yet, an error, a legacy ping (taken without compaction), or a
      standard packet together with the number of bytes it occupies. */
  datatype Extraction =
    | Underflow
    | Failed(error: Error)
    | Legacy(packet: RawPacket)
    | Framed(packet: RawPacket, consumed: nat)

  /** The header of a standard packet, read: the id, where the payload starts
      and how long it is (the declared length less the id's VarInt). */
  datatype HeaderRead =
    | Incomplete
    | Malformed(error: Error)
    | Header(id: int32, payloadStart: nat, payloadLength: nat)

  /** Reads the two VarInts of a standard packet. Reads from a `ByteBuffer`
      underflow at its limit, so the VarInt reader here is the guarded one.
      A negative payload length fails in `ByteBuffer.allocate`, whose message
      also carries the length; the model abbreviates it to "capacity < 0". */
  function ReadHeader(window: seq<byte>): (h: HeaderRead)
    ensures h.Header? ==> 2 <= h.payloadStart <= |window|
  {
    VarIntGuardedBounds(window, 0);
    match VarIntAtGuarded(window, 0)
    case Err(IncompleteBuffer) => Incomplete
    case Err(e) => Malformed(e)
    case Ok(Parsed(payloadLength, lengthOfLength)) =>
      if payloadLength == 0 then Malformed(InvalidData("Invalid packet"))
      else
        VarIntGuardedBounds(window, lengthOfLength);
        match VarIntAtGuarded(window, lengthOfLength)
        case Err(IncompleteBuffer) => Incomplete
        case Err(e) => Malformed(e)
        case Ok(Parsed(id, afterId)) =>
          var actualPayloadLength := Wrap32(payloadLength - (afterId - lengthOfLength));
          if actualPayloadLength < 0 then Malformed(IllegalArgument("capacity < 0"))
          else Header(id, afterId, actualPayloadLength)
  }

  /** The standard framing: the payload must be all there. */
  function ExtractFramed(window: seq<byte>): (e: Extraction)
    ensures e.Framed? ==> 2 <= e.consumed <= |window|
  {
    match ReadHeader(window)
    case Incomplete => Underflow
    case Malformed(error) => Failed(error)
    case Header(id, start, length) =>
      if start + length > |window| then Underflow
      else Framed(RawPacket(id, window[start..start + length]), start + length)
  }

  /** `RawPacket.from` on the bytes before the position, with the documented
      legacy test and a partial legacy ping treated like any other underflow. */
  function Extract(window: seq<byte>): (e: Extraction)
    ensures e.Framed? ==> 2 <= e.consumed <= |window|
    ensures e.Legacy? ==> MINIMUM_KNOWN_LEGACY_PACKET_SIZE <= |window|
  {
    match ParseLegacyPing(window)
    case Err(_) => Underflow
    case Ok(Some(ping)) => Legacy(RawPacket(LEGACY_PACKET_ID, ping.payload))
    case Ok(None) => ExtractFramed(window)
  }

  /** `RawPacket.from` as written: the inverted legacy test, and only a
      `BufferUnderflowException` caught, so a partial legacy ping's
      `IncompleteBufferException` escapes to the caller. */
  function ExtractAsWritten(window: seq<byte>): Extraction
  {
    match ParseLegacyPingAsWritten(window)
    case Err(e) => Failed(e)
    case Ok(Some(ping)) => Legacy(RawPacket(LEGACY_PACKET_ID, ping.payload))
    case Ok(None) => ExtractFramed(window)
  }

  /** The standard framing in detail: a declared length of zero is invalid;
      otherwise a packet occupies its length prefix plus the declared length,
      and its payload is the declared length less the id's VarInt, taken
      right after the id. */
  lemma FramedLayout(window: seq<byte>)
    requires |window| <= INT_MAX
    ensures VarIntAtGuarded(window, 0).Ok? && VarIntAtGuarded(window, 0).value.value == 0 ==>
      ExtractFramed(window) == Failed(InvalidData("Invalid packet"))
    ensures ExtractFramed(window).Framed? ==>
      var e := ExtractFramed(window);
      VarIntAtGuarded(window, 0).Ok?
      && var Parsed(n, lengthOfLength) := VarIntAtGuarded(window, 0).value;
      VarIntAtGuarded(window, lengthOfLength).Ok?
      && var Parsed(id, afterId) := VarIntAtGuarded(window, lengthOfLength).value;
      e.packet.id == id
      && e.consumed == lengthOfLength + n
      && |e.packet.payload| == n - (afterId - lengthOfLength)
      && e.packet.payload == window[afterId..e.consumed]
  {
  }

  /** Nothing is found in an empty buffer. */
  lemma ExtractEmpty()
    ensures Extract([]) == Underflow
  {
  }

  /** Bytes starting like the legacy signature, read as a standard packet,
      declare 254 bytes with id 122. */
  lemma SignatureStartHeader(window: seq<byte>)
    requires |window| >= 2 && window[0] == 0xfe && window[1] == 0x01
    ensures VarIntAtGuarded(window, 0) == Ok(Parsed(254, 2))
    ensures |window| == 3 && window[2] == 0xfa ==> ReadHeader(window) == Incomplete
    ensures |window| >= 4 && window[2] == 0xfa && window[3] == 0x00 ==> ReadHeader(window) == Header(122, 4, 252)
  {
    Pow2Values();
    assert ReadVarIntGuarded(window, 1, 7, 0x7e) == Ok(Parsed(254, 2));
    if |window| == 3 && window[2] == 0xfa {
      assert ReadVarIntGuarded(window, 3, 7, 0x7a) == Err(IncompleteBuffer);
    }
    if |window| >= 4 && window[2] == 0xfa && window[3] == 0x00 {
      assert ReadVarIntGuarded(window, 3, 7, 0x7a) == Ok(Parsed(122, 4));
    }
  }

  /** A buffer that so far agrees with the legacy signature never yields a
      standard packet. */
  lemma SignaturePrefixUnderflows(window: seq<byte>)
    requires |window| < |LEGACY_PACKET_SIGNATURE|
    requires forall i :: 0 <= i < |window| ==> window[i] == LEGACY_PACKET_SIGNATURE[i]
    ensures ExtractFramed(window) == Underflow
  {
    if |window| >= 2 {
      SignatureStartHeader(window);
    } else if |window| == 1 {
      assert ReadVarIntGuarded(window, 1, 7, 0x7e) == Err(IncompleteBuffer);
    }
  }

  lemma ReadHeaderExtends(window: seq<byte>, more: seq<byte>)
    requires ReadHeader(window) != Incomplete
    ensures ReadHeader(window + more) == ReadHeader(window)
  {
    if VarIntAtGuarded(window, 0) != Err(IncompleteBuffer) {
      VarIntGuardedExtends(window, more, 0);
      if VarIntAtGuarded(window, 0).Ok? && VarIntAtGuarded(window, 0).value.value != 0 {
        var lengthOfLength := VarIntAtGuarded(window, 0).value.offset;
        VarIntGuardedExtends(window, more, lengthOfLength);
      }
    }
  }

  lemma ExtractFramedExtends(window: seq<byte>, more: seq<byte>)
    requires ExtractFramed(window) != Underflow
    ensures ExtractFramed(window + more) == ExtractFramed(window)
  {
    ReadHeaderExtends(window, more);
    if ReadHeader(window).Header? {
      var Header(_, start, length) := ReadHeader(window);
      assert (window + more)[start..start + length] == window[start..start + length];
    }
  }

  /** Stability: once the front of the stream yields anything but an
      underflow, later bytes do not change the answer, so the packet found
      does not depend on how the stream was cut into reads. */
  lemma ExtractExtends(window: seq<byte>, more: seq<byte>)
    requires Extract(window) != Underflow
    ensures Extract(window + more) == Extract(window)
  {
    LegacyPingExtends(window, more);
    match ParseLegacyPing(window)
    case Ok(Some(_)) =>
    case Ok(None) =>
      if !ContradictsSignature(window) && |window| < |LEGACY_PACKET_SIGNATURE| {
        SignaturePrefixUnderflows(window);
      }
      ExtractFramedExtends(window, more);
  }

  /** A successfully encoded packet is the frame of its id and field bytes. */
  lemma EncodedPacketPieces(packet: Packet) returns (body: seq<byte>)
    requires EncodePacket(packet).Ok?
    ensures NoNulls(packet.properties) && EncodeFields(packet.properties) == Ok(body)
    ensures |VarIntBytes(packet.id)| + |body| <= MAX_PACKET_SIZE
    ensures EncodePacket(packet) == Ok(Frame(packet.id, body))
  {
    body := EncodeFields(packet.properties).value;
  }

  /** A length prefix starting 0xFE 0x01 declares exactly 254 bytes. */
  lemma SignatureStartDeclares254(size: int32)
    requires |VarIntBytes(size)| >= 2 && VarIntBytes(size)[0] == 0xfe && VarIntBytes(size)[1] == 0x01
    ensures size == 254
  {
    var enc := VarIntBytes(size);
    VarIntLayout(size);
    assert |enc| == 2;
    assert enc == [0xfe, 0x01];
    assert GroupValue([0x01]) == 1 by {
      assert [0x01][1..] == [];
    }
    assert enc[1..] == [0x01];
    assert GroupValue(enc) == 254;
  }

  /** No framed packet can be mistaken for a legacy ping: one starting
      0xFE 0x01 declares 254 bytes, and its id would then have to be
      encoded as 0xFA 0x00, which is not a minimal VarInt. */
  lemma FrameIsNotLegacy(id: int32, body: seq<byte>)
    requires |VarIntBytes(id)| + |body| <= MAX_PACKET_SIZE
    ensures ContradictsSignature(Frame(id, body))
  {
    var size := |VarIntBytes(id)| + |body|;
    var bs := Frame(id, body);
    var sizeBytes, idBytes := VarIntBytes(size), VarIntBytes(id);
    assert bs == sizeBytes + (idBytes + body);
    VarIntLayout(size);
    VarIntSize(size);
    assert bs[0] == sizeBytes[0];
    if bs[0] != 0xfe {
      assert bs[0] != LEGACY_PACKET_SIGNATURE[0];
      return;
    }
    assert |sizeBytes| >= 2 && bs[1] == sizeBytes[1];
    if bs[1] != 0x01 {
      assert bs[1] != LEGACY_PACKET_SIGNATURE[1];
      return;
    }
    SignatureStartDeclares254(size);
    VarIntLayout(id);
    VarIntSize(id);
    assert |sizeBytes| == 2 && bs[2] == idBytes[0];
    if bs[2] != 0xfa {
      assert bs[2] != LEGACY_PACKET_SIGNATURE[2];
      return;
    }
    assert |idBytes| >= 2 && bs[3] == idBytes[1];
    if bs[3] == 0x00 {
      assert false;
    }
    assert bs[3] != LEGACY_PACKET_SIGNATURE[3];
  }

  /** The header of a frame, once all of it is present, reads back the id and
      the body's length; any proper prefix of it is incomplete. */
  lemma FrameHeader(id: int32, body: seq<byte>, buffer: seq<byte>)
    requires |VarIntBytes(id)| + |body| <= MAX_PACKET_SIZE
    ensures var header := VarIntBytes(|VarIntBytes(id)| + |body|) + VarIntBytes(id);
      (header <= buffer ==> ReadHeader(buffer) == Header(id, |header|, |body|))
      && (buffer < header ==> ReadHeader(buffer) == Incomplete)
  {
    var size := |VarIntBytes(id)| + |body|;
    var sizeBytes, idBytes := VarIntBytes(size), VarIntBytes(id);
    var header := sizeBytes + idBytes;
    var ks := |sizeBytes|;
    if |buffer| < ks && buffer < header {
      assert buffer[0..] < sizeBytes;
      VarIntGuardedRoundTrip(size, buffer, 0);
    } else if header <= buffer || buffer < header {
      assert buffer[0..ks] == sizeBytes;
      assert sizeBytes <= buffer[0..];
      VarIntGuardedRoundTrip(size, buffer, 0);
      if header <= buffer {
        assert buffer[ks..ks + |idBytes|] == idBytes;
        assert idBytes <= buffer[ks..];
      } else {
        assert buffer[ks..] < idBytes;
      }
      VarIntGuardedRoundTrip(id, buffer, ks);
    }
  }

  /** The framing reads back the id and the body of a frame and consumes
      exactly the frame, whatever follows it. */
  lemma FrameRoundTrip(id: int32, body: seq<byte>, extra: seq<byte>)
    requires |VarIntBytes(id)| + |body| <= MAX_PACKET_SIZE
    ensures Extract(Frame(id, body) + extra) == Framed(RawPacket(id, body), |Frame(id, body)|)
  {
    var header := VarIntBytes(|VarIntBytes(id)| + |body|) + VarIntBytes(id);
    var buffer := Frame(id, body) + extra;
    assert buffer == header + (body + extra);
    FrameIsNotLegacy(id, body);
    LegacyPingExtends(Frame(id, body), extra);
    FrameHeader(id, body, buffer);
    assert buffer[|header|..|header| + |body|] == body;
  }

  /** Every proper prefix of a frame is an underflow, never a spurious packet. */
  lemma FramePrefixUnderflows(id: int32, body: seq<byte>, k: nat)
    requires |VarIntBytes(id)| + |body| <= MAX_PACKET_SIZE
    requires k < |Frame(id, body)|
    ensures Extract(Frame(id, body)[..k]) == Underflow
  {
    var header := VarIntBytes(|VarIntBytes(id)| + |body|) + VarIntBytes(id);
    var bs := Frame(id, body);
    var prefix := bs[..k];
    FrameIsNotLegacy(id, body);
    assert !HasSignature(prefix) by {
      var i :| 0 <= i < |bs| && i < 27 && bs[i] != LEGACY_PACKET_SIGNATURE[i];
      if |prefix| >= 27 {
        assert prefix[..27][i] != LEGACY_PACKET_SIGNATURE[i];
      }
    }
    assert bs == header + body;
    if k < |header| {
      assert prefix < header;
    } else {
      assert header <= prefix;
    }
    FrameHeader(id, body, prefix);
  }

  /** Round trip of `Packet.encode` and `RawPacket.from`: a buffer holding an
      encoded packet followed by anything yields that packet's id and field
      bytes and consumes exactly the encoding; every proper prefix of the
      encoding is an underflow. */
  lemma PacketRoundTrip(packet: Packet, extra: seq<byte>, k: nat)
    requires EncodePacket(packet).Ok?
    ensures NoNulls(packet.properties) && EncodeFields(packet.properties).Ok?
    ensures Extract(EncodePacket(packet).value + extra)
         == Framed(RawPacket(packet.id, EncodeFields(packet.properties).value), |EncodePacket(packet).value|)
    ensures k < |EncodePacket(packet).value| ==> Extract(EncodePacket(packet).value[..k]) == Underflow
  {
    var body := EncodedPacketPieces(packet);
    FrameRoundTrip(packet.id, body, extra);
    if k < |Frame(packet.id, body)| {
      FramePrefixUnderflows(packet.id, body, k);
    }
  }

  /** As written, a 28-byte start of an ordinary packet makes `from` throw the
      legacy parser's IncompleteBufferException instead of waiting for more
      bytes. */
  lemma PartialPacketEscapesAsWritten()
    ensures ExtractAsWritten([0x1e, 0x00] + seq(26, i => 0)) == Failed(IncompleteBuffer)
    ensures Extract([0x1e, 0x00] + seq(26, i => 0)) == Underflow
  {
    var start: seq<byte> := [0x1e, 0x00] + seq(26, i => 0);
    assert |start| == 28 && start[0] == 0x1e && start[1] == 0x00;
    assert start[..27][0] != LEGACY_PACKET_SIGNATURE[0];
    assert ParseLegacyPingAsWritten(start) == Err(IncompleteBuffer);
    assert ParseLegacyPing(start) == Ok(None);
    assert VarIntAtGuarded(start, 0) == Ok(Parsed(30, 1));
    assert VarIntAtGuarded(start, 1) == Ok(Parsed(0, 2));
    assert ReadHeader(start) == Header(0, 2, 29);
  }

  /** As written, a complete legacy ping is read as the start of a 254-byte
      standard packet and never delivered, provided the buffer's elements
      compare equal to the signature's `Int` values, as modelled here. */
  lemma LegacyPingLostAsWritten()
    ensures ExtractAsWritten(LEGACY_PACKET_SIGNATURE + [0, 0]) == Underflow
    ensures Extract(LEGACY_PACKET_SIGNATURE + [0, 0]) == Legacy(RawPacket(LEGACY_PACKET_ID, []))
  {
    var ping := LEGACY_PACKET_SIGNATURE + [0, 0];
    InvertedSignatureTest();
    assert ping[0] == 0xfe && ping[1] == 0x01 && ping[2] == 0xfa && ping[3] == 0x00;
    SignatureStartHeader(ping);
  }

  // ---------------------------------------------------------------------------
  // RawPacket.from

  /** What `from` returns for each kind of extraction. */
  function Returned(e: Extraction): Result<Option<RawPacket>>
  {
    match e
    case Underflow => Ok(None)
    case Failed(error) => Err(error)
    case Legacy(packet) => Ok(Some(packet))
    case Framed(packet, _) => Ok(Some(packet))
  }

  /** `RawPacket.from(buffer)`: reads through a window onto the bytes before
      the position; a standard packet is then cut off the front of the buffer
      by `compact()`, leaving the unread bytes at index 0. Anything else
      leaves the buffer as it was. */
  method From(buffer: ByteBuffer) returns (r: Result<Option<RawPacket>>)
    requires buffer.Valid()
    modifies buffer, buffer.data
    ensures buffer.Valid()
    ensures r == Returned(Extract(old(buffer.Content())))
    ensures Extract(old(buffer.Content())).Framed? ==>
      buffer.Content() == old(buffer.Content())[Extract(old(buffer.Content())).consumed..]
      && buffer.limit == buffer.Capacity()
    ensures !Extract(old(buffer.Content())).Framed? ==> unchanged(buffer) && unchanged(buffer.data)
  {
    if buffer.position == 0 {
      return Ok(None);
    }
    var window := buffer.data[..buffer.position];
    match ParseLegacyPing(window) {
      case Err(_) => return Ok(None);
      case Ok(Some(ping)) => return Ok(Some(RawPacket(LEGACY_PACKET_ID, ping.payload)));
      case Ok(None) =>
    }
    var id, payloadStart, actualPayloadLength;
    match ReadHeader(window) {
      case Incomplete => return Ok(None);
      case Malformed(e) => return Err(e);
      case Header(v, start, length) => id, payloadStart, actualPayloadLength := v, start, length;
    }
    var payload := new byte[actualPayloadLength];
    var cursor := payloadStart;
    var i := 0;
    while i < actualPayloadLength
      modifies payload
      invariant 0 <= i <= actualPayloadLength && cursor == payloadStart + i <= |window|
      invariant payload[..i] == window[payloadStart..cursor]
    {
      if cursor >= |window| {
        return Ok(None);
      }
      payload[i] := window[cursor];
      cursor := cursor + 1;
      i := i + 1;
    }
    assert payload[..] == payload[..i];
    assert ExtractFramed(window) == Framed(RawPacket(id, payload[..]), cursor);
    buffer.limit := buffer.position;
    buffer.position := cursor;
    buffer.Compact();
    assert buffer.Content() == window[cursor..];
    return Ok(Some(RawPacket(id, payload[..])));
  }
}
