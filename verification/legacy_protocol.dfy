/** Recognition of the 1.6 legacy server-list ping (protocol/packet/LegacyProtocol.kt):
    a fixed 27-byte signature, a 16-bit big-endian length, then that many bytes. */
module LegacyProtocol {
  import opened Numeric
  import opened Exceptions

  /** The first 27 bytes every legacy ping starts with: 0xFE 0x01 0xFA, the
      length 11, then "MC|PingHost" in UTF-16BE. */
  const LEGACY_PACKET_SIGNATURE: seq<byte> := [
    0xfe, 0x01, 0xfa, 0x00, 0x0b, 0x00, 0x4d, 0x00, 0x43,
    0x00, 0x7c, 0x00, 0x50, 0x00, 0x69, 0x00, 0x6e, 0x00,
    0x67, 0x00, 0x48, 0x00, 0x6f, 0x00, 0x73, 0x00, 0x74
  ]

  const MINIMUM_KNOWN_LEGACY_PACKET_SIZE: nat := 29

  const LEGACY_PACKET_ID: int := 0xfe

  /** A recognised ping: its id, its total length on the wire and the bytes after the header. */
  datatype LegacyPacket = LegacyPacket(id: int, totalLength: nat, payload: seq<byte>)

  predicate HasSignature(buffer: seq<byte>)
  {
    |buffer| >= |LEGACY_PACKET_SIGNATURE| && buffer[..|LEGACY_PACKET_SIGNATURE|] == LEGACY_PACKET_SIGNATURE
  }

  /** Some byte already present differs from the signature byte at its place. */
  predicate ContradictsSignature(buffer: seq<byte>)
  {
    exists i :: 0 <= i < |buffer| && i < |LEGACY_PACKET_SIGNATURE| && buffer[i] != LEGACY_PACKET_SIGNATURE[i]
  }

  /** `readUInt(27, 16, BIG)`: the declared length of the rest of the ping. */
  function RemainingLength(buffer: seq<byte>): (length: nat)
    requires |buffer| >= MINIMUM_KNOWN_LEGACY_PACKET_SIZE
    ensures length < 0x1_0000
  {
    (buffer[27] as int) * 0x100 + buffer[28] as int
  }

  /** `parseLegacyServerListPing` as written: the signature test is inverted,
      so a buffer that does NOT start with the signature is read as a ping. */
  function ParseLegacyPingAsWritten(buffer: seq<byte>): Result<Option<LegacyPacket>>
  {
    if |buffer| < |LEGACY_PACKET_SIGNATURE| then Ok(None)
    else if buffer[..|LEGACY_PACKET_SIGNATURE|] == LEGACY_PACKET_SIGNATURE then Ok(None)
    else if |buffer| < MINIMUM_KNOWN_LEGACY_PACKET_SIZE then Err(IncompleteBuffer)
    else
      var totalPacketLength := MINIMUM_KNOWN_LEGACY_PACKET_SIZE + RemainingLength(buffer);
      if |buffer| < totalPacketLength then Err(IncompleteBuffer)
      else Ok(Some(LegacyPacket(LEGACY_PACKET_ID, totalPacketLength,
                                buffer[MINIMUM_KNOWN_LEGACY_PACKET_SIZE..totalPacketLength])))
  }

  /** `parseLegacyServerListPing` as its documentation states it: a buffer that
      does not start with the signature holds no legacy ping. */
  function ParseLegacyPing(buffer: seq<byte>): Result<Option<LegacyPacket>>
  {
    if !HasSignature(buffer) then Ok(None)
    else if |buffer| < MINIMUM_KNOWN_LEGACY_PACKET_SIZE then Err(IncompleteBuffer)
    else
      var totalPacketLength := MINIMUM_KNOWN_LEGACY_PACKET_SIZE + RemainingLength(buffer);
      if |buffer| < totalPacketLength then Err(IncompleteBuffer)
      else Ok(Some(LegacyPacket(LEGACY_PACKET_ID, totalPacketLength,
                                buffer[MINIMUM_KNOWN_LEGACY_PACKET_SIZE..totalPacketLength])))
  }

  /** The reference form of a ping: the signature, the payload length in two
      big-endian bytes, then the payload. */
  function EncodeLegacyPing(payload: seq<byte>): seq<byte>
    requires |payload| < 0x1_0000
  {
    LEGACY_PACKET_SIGNATURE + [|payload| / 0x100, |payload| % 0x100] + payload
  }

  /** The three outcomes of the documented parser: no ping without the
      signature; a ping with id 0xFE, total 29 + L and the L bytes after the
      header once they are all there; an incomplete buffer before that. */
  lemma LegacyPingOutcomes(buffer: seq<byte>)
    ensures ParseLegacyPing(buffer) == Ok(None) <==> !HasSignature(buffer)
    ensures ParseLegacyPing(buffer) == Err(IncompleteBuffer) <==>
      HasSignature(buffer) && (|buffer| < MINIMUM_KNOWN_LEGACY_PACKET_SIZE
                               || |buffer| < MINIMUM_KNOWN_LEGACY_PACKET_SIZE + RemainingLength(buffer))
    ensures ParseLegacyPing(buffer).Ok? && ParseLegacyPing(buffer).value.Some? ==>
      var p := ParseLegacyPing(buffer).value.value;
      HasSignature(buffer) && p.id == LEGACY_PACKET_ID
      && p.totalLength == MINIMUM_KNOWN_LEGACY_PACKET_SIZE + RemainingLength(buffer) <= |buffer|
      && p.payload == buffer[MINIMUM_KNOWN_LEGACY_PACKET_SIZE..p.totalLength]
      && |p.payload| == RemainingLength(buffer)
  {
  }

  /** Round trip: the documented parser finds the ping `EncodeLegacyPing`
      builds, whatever follows it, and reports every proper prefix of it as
      incomplete or, while still shorter than the signature, as no ping. */
  lemma LegacyPingRoundTrip(payload: seq<byte>, rest: seq<byte>, k: nat)
    requires |payload| < 0x1_0000
    ensures ParseLegacyPing(EncodeLegacyPing(payload) + rest)
         == Ok(Some(LegacyPacket(LEGACY_PACKET_ID, MINIMUM_KNOWN_LEGACY_PACKET_SIZE + |payload|, payload)))
    ensures |LEGACY_PACKET_SIGNATURE| <= k < |EncodeLegacyPing(payload)| ==>
      ParseLegacyPing(EncodeLegacyPing(payload)[..k]) == Err(IncompleteBuffer)
  {
    var enc := EncodeLegacyPing(payload);
    var buffer := enc + rest;
    assert buffer[..27] == LEGACY_PACKET_SIGNATURE;
    assert buffer[27] == |payload| / 0x100 && buffer[28] == |payload| % 0x100;
    assert buffer[29..29 + |payload|] == payload;
    if |LEGACY_PACKET_SIGNATURE| <= k < |enc| {
      var prefix := enc[..k];
      assert prefix[..27] == LEGACY_PACKET_SIGNATURE;
      if k >= 29 {
        assert prefix[27] == |payload| / 0x100 && prefix[28] == |payload| % 0x100;
      }
    }
  }

  /** A decided answer of the documented parser does not change when more
      bytes arrive: a found ping stays found, and a buffer that already
      shows it does not start with the signature never becomes a ping. */
  lemma LegacyPingExtends(buffer: seq<byte>, more: seq<byte>)
    ensures ParseLegacyPing(buffer).Ok? && ParseLegacyPing(buffer).value.Some? ==>
      ParseLegacyPing(buffer + more) == ParseLegacyPing(buffer)
    ensures ContradictsSignature(buffer) ==>
      ParseLegacyPing(buffer + more) == ParseLegacyPing(buffer) == Ok(None)
  {
    var whole := buffer + more;
    if |buffer| >= 27 {
      assert whole[..27] == buffer[..27];
      if |buffer| >= 29 {
        assert whole[27] == buffer[27] && whole[28] == buffer[28];
        var total := 29 + RemainingLength(buffer);
        if total <= |buffer| {
          assert whole[29..total] == buffer[29..total];
        }
      }
    }
    if ContradictsSignature(buffer) {
      var i :| 0 <= i < |buffer| && i < 27 && buffer[i] != LEGACY_PACKET_SIGNATURE[i];
      assert whole[i] == buffer[i];
      if |whole| >= 27 {
        assert whole[..27][i] != LEGACY_PACKET_SIGNATURE[i];
      }
      if |buffer| >= 27 {
        assert buffer[..27][i] != LEGACY_PACKET_SIGNATURE[i];
      }
    }
  }

  /** The written test drops the genuine ping, with an empty payload, on the
      floor and reads 29 bytes that are no ping at all as one. The first half
      needs a buffer whose elements compare equal to the signature's `Int`
      values; a `List<Byte>` never does, and then only the second half holds. */
  lemma InvertedSignatureTest()
    ensures ParseLegacyPingAsWritten(LEGACY_PACKET_SIGNATURE + [0, 0]) == Ok(None)
    ensures ParseLegacyPing(LEGACY_PACKET_SIGNATURE + [0, 0])
         == Ok(Some(LegacyPacket(LEGACY_PACKET_ID, MINIMUM_KNOWN_LEGACY_PACKET_SIZE, [])))
    ensures ParseLegacyPingAsWritten(seq(29, i => 0))
         == Ok(Some(LegacyPacket(LEGACY_PACKET_ID, MINIMUM_KNOWN_LEGACY_PACKET_SIZE, [])))
    ensures ParseLegacyPing(seq(29, i => 0)) == Ok(None)
  {
    var ping := LEGACY_PACKET_SIGNATURE + [0, 0];
    assert ping[..27] == LEGACY_PACKET_SIGNATURE;
    assert ping[27] == 0 && ping[28] == 0 && RemainingLength(ping) == 0;
    assert ping[29..29] == [];
    var zeros: seq<byte> := seq(29, i => 0);
    assert zeros[..27][0] != LEGACY_PACKET_SIGNATURE[0];
    assert zeros[27] == 0 && zeros[28] == 0 && RemainingLength(zeros) == 0;
    assert zeros[29..29] == [];
  }
}
