# Gateway core in Dafny

A model of the core of the Minecraft server gateway `gateway`. The gateway
accepts Minecraft Java Edition connections and starts or stops the backend
server on demand. The model covers four parts of it:

1. **The wire codec.**
   - `Field.kt`: VarInt (seven data bits per byte, low group first,
     continuation bit 0x80), length-prefixed strings, and big-endian
     fixed-width numbers.
   - `LegacyProtocol.kt`: recognition of the 1.6 legacy server-list ping.
   - `PacketParser.kt` and `Packet.kt`: the packet framing
     `VarInt length | VarInt id | payload` and packet encoding.
2. **The packet accumulation buffer** (`PacketQueue.kt`, with
   `RawPacket.from` of `Packet.kt`).
   - Bytes read from the socket collect in a `ByteBuffer`.
   - The buffer doubles when three quarters full and halves, after a packet is
     taken, when at most a quarter full.
   - `consume` hands out one packet at a time.
3. **The backend lifecycle** (`delegates/ServerDelegate.kt`).
   - `waitForServerToBe` drives the server to a desired status with at most
     five start/stop actions.
   - `checkup` accumulates the time the server has been empty and stops it
     after the configured timeout.
4. **Argument and property lookup.**
   - `CommandLine.kt`: the command-line parser.
   - `ConfigurationSource.kt`: memoised configuration properties.
   - `Extensions.kt`: `retrieve` and `associateNotNull`.

One Dafny module per source file, plus two shared ones:

| module | file | models |
|---|---|---|
| `Numeric` | numeric.dfy | JVM integer widths, 32-bit wrap-around, powers of two |
| `Exceptions` | exceptions.dfy | the exceptions raised, as an `Error` value; `Result`, `Outcome`, `Option` |
| `Field` | field.dfy | `protocol/packet/Field.kt` |
| `LegacyProtocol` | legacy_protocol.dfy | `protocol/packet/LegacyProtocol.kt` |
| `ByteBuffers` | byte_buffer.dfy | the parts of `java.nio.ByteBuffer` in use: `allocate`, `compact`, `put` |
| `Packets` | packet.dfy | `protocol/packet/Packet.kt` |
| `PacketParser` | packet_parser.dfy | `protocol/packet/PacketParser.kt` |
| `PacketQueues` | packet_queue.dfy | `protocol/PacketQueue.kt`, with the socket as a sequence of chunks |
| `ServerDelegates` | server_delegate.dfy | `delegates/ServerDelegate.kt`, with the driver as an oracle |
| `CommandLine` | command_line.dfy | `utils/CommandLine.kt` |
| `ConfigurationSource` | configuration_source.dfy | `config/ConfigurationSource.kt` |
| `Extensions` | extensions.dfy | `retrieve` and `associateNotNull` of `utils/Extensions.kt` |

## How the model is built

- **Bytes and integers.** Bytes are integers 0..255. Kotlin's signed `Byte` is
  modelled by explicit sign extension wherever the code widens one. Kotlin
  `Int` is `int32`, and its wrap-around is written out with `Wrap32`.
- **Errors.** Exceptions are values of `Exceptions.Error`. Operations that
  throw return `Result`, and an operation returning `Unit` returns `Outcome`.
- **Imperative code stays imperative.** The following are Dafny methods with
  loops or field updates:
  - `VarInt.encode` and `VarInt.parse`;
  - `RawPacket.from` on a `ByteBuffer` class over an array;
  - the `PacketQueue` class;
  - the `ServerDelegate` class;
  - `CommandLineArgs.parse`;
  - `ConfigurableProperty.getValue`.

  Each method is proved against a specification function, and the lemmas
  state the properties of that function.
- **I/O becomes input.**
  - A socket is the sequence of chunks it will still deliver
    (`PacketQueues.ReadChannel`).
  - The implementation-specific driver of a delegate is an oracle: the
    statuses, action outcomes and player counts it will return, in order
    (`ServerDelegates.Driver`).
  - Clock readings are parameters in milliseconds.
- **Reflection becomes explicit lists.** `Packet.encode` discovers payload
  properties by reflection. Here a packet carries its properties explicitly,
  in constructor order, as `Packets.Property` values.

## Where the documentation and the code disagree

The model follows the code in each of these cases. There are two exceptions:
the legacy signature test and multi-flag groups. For those, the rest of the
model uses the documented or evident intent, and the code as written is
recorded under "## Findings".

- **`RawPacket.from` and legacy pings.** The doc comment says a returned
  packet is removed from the buffer. On the legacy-ping path the code returns
  before the `compact()` (Packet.kt:68). So `Packets.From` and
  `PacketQueues.ConsumeSpec` leave a legacy ping in the buffer.
- **`shrinkIfLow` has no floor.** It halves whenever `position / capacity ≤
  0.25`, including exactly 0.25, and never stops at `MINIMUM_BUFFER_SIZE`
  (`PacketQueues.ShrinkHasNoFloor`).
- **`readPacket` accepts a declared length of zero.** `RawPacket.from`
  rejects one as `InvalidDataException("Invalid packet")`. Both behaviours are
  kept, side by side, in `PacketParser.ReadPacketAcceptsZeroLength`.
- **`readPacket` rarely returns null.** Its doc says null means "not enough
  bytes". But it uses the list-based `Field.VarInt.parse`, whose guard
  (Field.kt:27) lets a read at exactly the end fail with an index error.
  - So a truncated standard packet is an index error, not null
    (`PacketParser.ReadPacketTruncatedFrame`).
  - Null comes only from a partial legacy ping.
- **The repository is between two APIs.** `Packet.kt` calls a
  `ByteBuffer`-based `Field` API, a `Field.Json` and a `Field.SignedLong`
  that are not in the source. Only the list-based `Field.kt` exists, where
  the signed 64-bit field is called `Field.Long`.
  - The model uses the list-based codecs throughout.
  - For the `ByteBuffer` reads of `RawPacket.from` it uses the guarded VarInt
    reader (`Field.VarIntAtGuarded`): `ByteBuffer.get()` at the limit throws
    `BufferUnderflowException`, which `from` turns into null.
  - The `ServerState` JSON field is encoded as a string of its JSON text.
- **Legacy pings in `readPacket`.** `readPacket` returns the packet type of
  `parseLegacyServerListPing`, which differs from `RawPacket`. A legacy ping is
  modelled as `RawPacket(0xFE, payload)`.
- **The legacy signature test.** The code's signature test is inverted
  relative to its doc comment (finding 1 below). Everything built on top of
  it (`Packets.Extract`, `PacketParser.ReadPacket`) uses the documented
  direction.
- **`Buffer` and `readUInt` are not part of this model.**
  `parseLegacyServerListPing` takes them from the model package, where they
  are not defined. The model treats the buffer as a byte list compared
  byte-for-byte with the signature, and `readUInt(27, 16, BIG)` as the
  unsigned big-endian value of bytes 27 and 28. The one typed caller,
  `readPacket` (`PacketParser.kt:5-7`), passes a `List<Byte>` instead; its
  elements never equal the `Int` elements of the signature list (and 0xFE is
  -2 as a `Byte`), so on that reading the test at `LegacyProtocol.kt:23`
  never returns null and only its "anything else is a ping" half applies.
- **Multi-flag groups in `CommandLine.parse`.** The code splits a group into
  its characters and looks each one up in a map keyed by strings. No
  character is a string key, so every group is an unexpected argument
  (`CommandLine.MultiFlagUnexpectedAsWritten`). The rest of the model looks
  each character up as its one-character name, which is the evident intent
  (`CommandLine.MultiFlagGroupSetsAll`); see finding 7 below.

## Model

| member | source | states |
|---|---|---|
| `Numeric.Wrap32` | src/main/kotlin/protocol/packet/Field.kt:36 | `Long.toInt()` agrees with its argument modulo 2^32 and is the identity on values that fit an `Int` |
| `Numeric.Unsigned32` | src/main/kotlin/protocol/packet/Field.kt:40 | `toLong() and 0xffffffffL` is below 2^32, congruent to the value modulo 2^32, and at least 2^31 exactly when the value is negative |
| `Field.EncodeVarInt` | src/main/kotlin/protocol/packet/Field.kt:39-48 | the do-while loop emits exactly `VarIntBytes(data)`, the unsigned LEB128 groups of the value's 32-bit pattern |
| `Field.Leb128Layout` | src/main/kotlin/protocol/packet/Field.kt:42-47 | the 7-bit groups, low first, add back up to the value; 0x80 is set on every byte but the last; the last byte is non-zero unless the value is 0 |
| `Field.Leb128Length` | src/main/kotlin/protocol/packet/Field.kt:42-47 | the encoding has at most k bytes iff the value is below 2^(7k) |
| `Field.VarIntLayout` | src/main/kotlin/protocol/packet/Field.kt:39-48 | a VarInt's groups add up to the unsigned 32-bit pattern of the `Int`, and the continuation bit marks every byte but the last |
| `Field.VarIntSize` | src/main/kotlin/protocol/packet/Field.kt:40-47 | a VarInt is 1 to 5 bytes with no zero last byte (unless it encodes 0), and every negative `Int` takes exactly 5 |
| `Field.VarIntExamples` | src/main/kotlin/protocol/packet/Field.kt:39-48 | the encodings of 0, 127, 128, 25565 and -1 |
| `Field.ParseVarInt` | src/main/kotlin/protocol/packet/Field.kt:22-37 | the do-while decoder with its mutable offset computes `VarIntAt`: the value and the offset after it, or the error |
| `Field.ReadLeb128` | src/main/kotlin/protocol/packet/Field.kt:25-35 | reading the groups of u placed in the buffer adds u shifted by the bits read so far, wrapped to an `Int`, and stops right after them |
| `Field.VarIntRoundTrip` | src/main/kotlin/protocol/packet/Field.kt:22-48 | decoding at an offset where `encode(v)` is placed returns v and advances the offset by exactly the encoding's length |
| `Field.ReadVarIntBounds` | src/main/kotlin/protocol/packet/Field.kt:25-26 | after j groups a read takes at most 5 - j more bytes, and 5 - j continuation bytes in a row give "VarInt is too big" |
| `Field.VarIntAtMostFiveBytes` | src/main/kotlin/protocol/packet/Field.kt:25-26 | a decoded VarInt spans 1 to 5 bytes; five continuation bytes in a row give "VarInt is too big" |
| `Field.ReadVarIntRunsOff` | src/main/kotlin/protocol/packet/Field.kt:27-29 | continuation bytes up to the end of the data make the read fail with an index error, not an incomplete buffer |
| `Field.VarIntPastTheEnd` | src/main/kotlin/protocol/packet/Field.kt:27-29 | an offset beyond the end is an incomplete buffer, while a proper prefix of an encoding is an index error: the two outcomes of the `>` guard |
| `Field.ReadVarIntInside` | src/main/kotlin/protocol/packet/Field.kt:26-29 | from an offset inside the data the written decoder fails only with an index error or "VarInt is too big", and a value it reads ends inside the data |
| `Field.GuardedAgrees` | src/main/kotlin/protocol/packet/Field.kt:27 | the decoder with the guard written `>=` is the written one with its index error turned into an incomplete buffer, and agrees with it otherwise |
| `Field.VarIntGuardedRoundTrip` | src/main/kotlin/protocol/packet/Field.kt:22-48 | the guarded decoder inverts `encode` and reports every proper prefix of an encoding as incomplete |
| `Field.ReadVarIntGuardedExtends` | src/main/kotlin/protocol/packet/Field.kt:25-35 | once a guarded read is decided, bytes appended after the data do not change it |
| `Field.VarIntGuardedExtends` | src/main/kotlin/protocol/packet/Field.kt:22-37 | a guarded VarInt read that is not incomplete is unchanged by appending bytes |
| `Field.VarIntGuardedBounds` | src/main/kotlin/protocol/packet/Field.kt:27-32 | a successful guarded read ends inside the data, 1 to 5 bytes after it starts |
| `Field.GuardedEndsInside` | src/main/kotlin/protocol/packet/Field.kt:27-32 | from any step, a successful guarded read ends inside the data |
| `Field.ByteToChar` | src/main/kotlin/protocol/packet/Field.kt:57 | `toUInt().toInt().toChar()` on a signed byte gives the byte itself below 0x80 and 0xFF00 plus the byte from 0x80 on |
| `Field.StringOverrunIsIncomplete` | src/main/kotlin/protocol/packet/Field.kt:54-55 | a declared length that runs past the data is an incomplete buffer, in the written and the corrected parse |
| `Field.StringRoundTrip` | src/main/kotlin/protocol/packet/Field.kt:52-64 | the corrected parse returns the UTF-8 bytes `encode` wrote and the offset after them; the empty string encodes as one zero byte |
| `Field.StringParseAsWrittenExample` | src/main/kotlin/protocol/packet/Field.kt:56-57 | the written parse of the encoding of "AB" returns "A, B" and leaves the offset after the length prefix |
| `Field.ToULong` | src/main/kotlin/protocol/packet/Field.kt:91-94 | each field's `toULong` fits in its SIZE_BYTES bytes |
| `Field.FromULong` | src/main/kotlin/protocol/packet/Field.kt:91-94 | each field's `toUByte`, `toUShort`, `toULong` or `toLong` truncation gives a value of the field's type |
| `Field.BigEndianBounded` | src/main/kotlin/protocol/packet/Field.kt:76-79 | n unsigned bytes read most significant first hold a value below 2^(8n) |
| `Field.BigEndianSpells` | src/main/kotlin/protocol/packet/Field.kt:85-86 | the n bytes `List(n) { (u shr 8i).toByte() }.asReversed()` read back as u modulo 2^(8n) |
| `Field.NumberLayout` | src/main/kotlin/protocol/packet/Field.kt:83-87 | encode emits exactly SIZE_BYTES bytes, most significant first, spelling `toULong(x)` |
| `Field.NumberRoundTrip` | src/main/kotlin/protocol/packet/Field.kt:75-87 | the corrected parse inverts encode for UnsignedByte, UnsignedShort, UnsignedLong and Long |
| `Field.UnsignedByteRoundTripAsWritten` | src/main/kotlin/protocol/packet/Field.kt:75-80 | for UnsignedByte the written parse does invert encode |
| `Field.SignExtensionBreaksRoundTrip` | src/main/kotlin/protocol/packet/Field.kt:78 | the written parse reads UnsignedShort 128 back as 65408 and Long 128 as -128 |
| `LegacyProtocol.RemainingLength` | src/main/kotlin/protocol/packet/LegacyProtocol.kt:25 | the remaining length read at bytes 27 and 28 is an unsigned 16-bit value |
| `LegacyProtocol.LegacyPingOutcomes` | src/main/kotlin/protocol/packet/LegacyProtocol.kt:16-32 | documented direction: null iff the signature is absent; incomplete iff the signature is there but fewer than 29 + L bytes; otherwise id 0xFE, total 29 + L, payload the L bytes after the header |
| `LegacyProtocol.LegacyPingRoundTrip` | src/main/kotlin/protocol/packet/LegacyProtocol.kt:21-32 | a ping built from signature, length and payload is found with that payload whatever follows it, and each prefix that holds the signature but not the whole ping is incomplete |
| `LegacyProtocol.LegacyPingExtends` | src/main/kotlin/protocol/packet/LegacyProtocol.kt:22-27 | a found ping stays found as bytes arrive, and a buffer that already contradicts the signature stays null |
| `LegacyProtocol.InvertedSignatureTest` | src/main/kotlin/protocol/packet/LegacyProtocol.kt:23 | the written test returns null for a genuine ping and reads 29 zero bytes as a ping; the documented test does the opposite. The null half holds only if `Buffer` compares its elements equal to the `Int` values of the signature; with the `List<Byte>` that `readPacket` passes it never does |
| `ByteBuffers.ByteBuffer.Allocate` | src/main/kotlin/protocol/PacketQueue.kt:20 | `allocate(n)`: n zero bytes, position 0, limit n |
| `ByteBuffers.ByteBuffer.Compact` | src/main/kotlin/protocol/packet/Packet.kt:82-84 | `compact()` moves the bytes between position and limit to the front, keeps the rest, and puts the position after them and the limit at the capacity |
| `ByteBuffers.ByteBuffer.Put` | src/main/kotlin/protocol/PacketQueue.kt:65 | `put(src)` copies src's remaining bytes to the position and advances both positions; nothing else changes |
| `ByteBuffers.ByteBuffer.PutBytes` | src/main/kotlin/protocol/PacketQueue.kt:44 | the bytes read land at the position, which advances by their number; nothing else changes |
| `Packets.FirstNull` | src/main/kotlin/protocol/packet/Packet.kt:24-26 | the name of the first null property is reported, and none is reported iff there is none |
| `Packets.EncodeFields` | src/main/kotlin/protocol/packet/Packet.kt:27-38 | fields encode iff none is of an unsupported class; otherwise the error names the first such class |
| `Packets.EncodePacketErrors` | src/main/kotlin/protocol/packet/Packet.kt:24-47 | a null property fails with "Packet property <name> is null", naming the first null property, before any class is looked at; then an unsupported class fails with its error; success iff neither and the size fits an `Int` |
| `Packets.EncodedPacketPieces` | src/main/kotlin/protocol/packet/Packet.kt:39-47 | an encoded packet is `VarInt(n) ++ VarInt(id) ++ fields`, where n is the id's VarInt length plus the fields' length |
| `Packets.ReadHeader` | src/main/kotlin/protocol/packet/Packet.kt:70-76 | a header read ends at least two bytes in and inside the window |
| `Packets.ExtractFramed` | src/main/kotlin/protocol/packet/Packet.kt:70-80 | a framed packet occupies at least two bytes of the window and no more than the window |
| `Packets.Extract` | src/main/kotlin/protocol/packet/Packet.kt:64-91 | a standard packet fits the window; a legacy ping is found only in a window of at least 29 bytes |
| `Packets.FramedLayout` | src/main/kotlin/protocol/packet/Packet.kt:70-80 | a declared length 0 is "Invalid packet"; a packet occupies the length prefix plus the declared length; its payload is the declared length less the id's VarInt, right after the id |
| `Packets.ExtractEmpty` | src/main/kotlin/protocol/packet/Packet.kt:65 | an empty buffer yields nothing |
| `Packets.SignatureStartHeader` | src/main/kotlin/protocol/packet/Packet.kt:68-76 | bytes 0xFE 0x01 read as a VarInt declare 254; with 0xFA 0x00 after them the header reads id 122 and 252 payload bytes |
| `Packets.SignaturePrefixUnderflows` | src/main/kotlin/protocol/packet/Packet.kt:66-88 | a partial legacy signature is an underflow of the standard framing, not an error |
| `Packets.ReadHeaderExtends` | src/main/kotlin/protocol/packet/Packet.kt:70-76 | a decided header read is unchanged by appending bytes |
| `Packets.ExtractFramedExtends` | src/main/kotlin/protocol/packet/Packet.kt:70-80 | a decided standard extraction is unchanged by appending bytes |
| `Packets.ExtractExtends` | src/main/kotlin/protocol/packet/Packet.kt:64-91 | whatever `from` decides stays decided when more bytes arrive |
| `Packets.SignatureStartDeclares254` | src/main/kotlin/protocol/packet/Packet.kt:41 | only the size 254 has a VarInt starting 0xFE 0x01 |
| `Packets.FrameIsNotLegacy` | src/main/kotlin/protocol/packet/Packet.kt:39-47 | an encoded standard packet always contradicts the legacy signature |
| `Packets.FrameHeader` | src/main/kotlin/protocol/packet/Packet.kt:70-76 | the header of an encoded packet reads back its id, payload start and length; a proper prefix of the header is incomplete |
| `Packets.FrameRoundTrip` | src/main/kotlin/protocol/packet/Packet.kt:64-91 | an encoded frame followed by anything yields its id and body and consumes exactly the frame |
| `Packets.FramePrefixUnderflows` | src/main/kotlin/protocol/packet/Packet.kt:78-88 | every proper prefix of a frame is an underflow |
| `Packets.PacketRoundTrip` | src/main/kotlin/protocol/packet/Packet.kt:17-91 | `from` on `encode(p)` plus extra bytes returns p's id and field bytes and consumes exactly the encoding; every proper prefix underflows |
| `Packets.PartialPacketEscapesAsWritten` | src/main/kotlin/protocol/packet/Packet.kt:87-89 | as written, 28 bytes of a standard packet still arriving make the legacy parser's incomplete-buffer exception escape `from` |
| `Packets.LegacyPingLostAsWritten` | src/main/kotlin/protocol/packet/Packet.kt:68 | as written, a complete legacy ping is not recognised, provided `Buffer` compares its elements equal to the `Int` values of the signature (the byte-value reading above) |
| `Packets.From` | src/main/kotlin/protocol/packet/Packet.kt:64-91 | returns what `Extract` finds before the position; after a standard packet the buffer holds exactly the bytes after it, from index 0, with the limit at the capacity; otherwise the buffer is unchanged |
| `PacketParser.Slice` | src/main/kotlin/protocol/packet/PacketParser.kt:16 | a slice succeeds iff the range is empty or ends inside the list, and then holds exactly the range's bytes; otherwise an index error |
| `PacketParser.ReadPacketNullOnlyForPartialPing` | src/main/kotlin/protocol/packet/PacketParser.kt:18-21 | null is returned iff the buffer holds a partial legacy ping |
| `PacketParser.ReadPacketErrors` | src/main/kotlin/protocol/packet/PacketParser.kt:18-21 | the only errors that propagate are an index error and "VarInt is too big" |
| `PacketParser.ReadPacketLayout` | src/main/kotlin/protocol/packet/PacketParser.kt:9-17 | the id is the second VarInt, and the payload runs from after it to `n + lengthOfLength`, of length n less the id's VarInt |
| `PacketParser.ReadPacketLegacyRoundTrip` | src/main/kotlin/protocol/packet/PacketParser.kt:7 | a legacy ping is returned first, with id 0xFE and its payload |
| `PacketParser.FrameVarInts` | src/main/kotlin/protocol/packet/PacketParser.kt:10-12 | the two VarInts of an encoded frame read back as its size and id, and a truncated header is an index error |
| `PacketParser.ReadPacketRoundTrip` | src/main/kotlin/protocol/packet/PacketParser.kt:5-22 | an encoded frame followed by anything reads back as its id and body |
| `PacketParser.ReadPacketAcceptsZeroLength` | src/main/kotlin/protocol/packet/PacketParser.kt:10-17 | `[0, 0]` reads as a packet with id 0 and no payload, which `RawPacket.from` rejects as "Invalid packet" |
| `PacketParser.ReadPacketTruncatedFrame` | src/main/kotlin/protocol/packet/PacketParser.kt:16 | every proper prefix of an encoded frame is an index error, never null |
| `PacketQueues.GrownCapacity` | src/main/kotlin/protocol/PacketQueue.kt:49-52 | capacity doubles iff `4·position ≥ 3·capacity` and otherwise stays; afterwards less than three quarters are in use |
| `PacketQueues.ShrunkCapacity` | src/main/kotlin/protocol/PacketQueue.kt:58-62 | capacity halves iff `4·position ≤ capacity` and otherwise stays; the bytes in use still fit |
| `PacketQueues.ShrinkHasNoFloor` | src/main/kotlin/protocol/PacketQueue.kt:60-62 | an empty buffer of 256 bytes halves to 128, and after eight packets to 1 |
| `PacketQueues.GrowAsWritten` | src/main/kotlin/protocol/PacketQueue.kt:52-53 | the written growth copies capacity minus position bytes |
| `PacketQueues.GrowAsWrittenLosesContent` | src/main/kotlin/protocol/PacketQueue.kt:53 | when growth triggers, the written copy holds fewer bytes than were received, so it is not the content |
| `PacketQueues.GrowAsWrittenExample` | src/main/kotlin/protocol/PacketQueue.kt:53 | 192 received bytes of a 256-byte buffer become its 64 unused zero bytes |
| `PacketQueues.ReadChannel.ReadAvailable` | src/main/kotlin/protocol/PacketQueue.kt:44 | -1 once closed; otherwise as much of the next chunk as fits moves from the socket to the buffer, keeping the stream's order |
| `PacketQueues.ConsumeEncodedPacket` | src/main/kotlin/protocol/PacketQueue.kt:31-46 | consuming a stream that starts with an encoded packet returns its id and field bytes and leaves exactly what follows; a stream ending inside it ends in `ConnectionClosedException` |
| `PacketQueues.ConsumeDecided` | src/main/kotlin/protocol/PacketQueue.kt:33-45 | once the buffered bytes decide a packet or an error, the bytes still to come do not change the result |
| `PacketQueues.PacketQueue.constructor` | src/main/kotlin/protocol/PacketQueue.kt:11-22 | a new queue is open with an empty buffer of 256 bytes |
| `PacketQueues.PacketQueue.End` | src/main/kotlin/protocol/PacketQueue.kt:24-28 | the first `end()` returns the buffer and channel and closes the queue; a later one fails |
| `PacketQueues.PacketQueue.Reallocate` | src/main/kotlin/protocol/PacketQueue.kt:62-66 | a new buffer of the given capacity holds the same content |
| `PacketQueues.PacketQueue.GrowIfFilled` | src/main/kotlin/protocol/PacketQueue.kt:49-55 | capacity becomes `GrownCapacity`; the content is kept; room is left to read into |
| `PacketQueues.PacketQueue.ShrinkIfLow` | src/main/kotlin/protocol/PacketQueue.kt:58-67 | capacity becomes `ShrunkCapacity`; the content is kept |
| `PacketQueues.PacketQueue.TakeBuffered` | src/main/kotlin/protocol/PacketQueue.kt:33-38 | a packet or an error taken from the buffered bytes is the result `ConsumeSpec` gives for the whole stream, and leaves the same bytes to come; an incomplete packet changes nothing |
| `PacketQueues.PacketQueue.Consume` | src/main/kotlin/protocol/PacketQueue.kt:31-46 | fails once closed; otherwise the result and the bytes left to hand out are `ConsumeSpec` of the bytes before the call, whatever the chunking |
| `ServerDelegates.Driver.GetCurrentStatus` | src/main/kotlin/delegates/ServerDelegate.kt:85 | returns the oracle's next status and consumes it |
| `ServerDelegates.Driver.Act` | src/main/kotlin/delegates/ServerDelegate.kt:87-96 | returns the outcome of the next start or stop and consumes it |
| `ServerDelegates.Driver.GetPlayersOnline` | src/main/kotlin/delegates/ServerDelegate.kt:217-218 | returns the next status exchange's player count, or none when it failed, and consumes it |
| `ServerDelegates.Poll` | src/main/kotlin/delegates/ServerDelegate.kt:127-133 | polling returns normally only in a stable status, and never touches actions or reports |
| `ServerDelegates.DriveSettles` | src/main/kotlin/delegates/ServerDelegate.kt:120-155 | returns normally only in the desired status; attempts never exceed five; no more driver actions are used than attempts made |
| `ServerDelegates.PolledSettles` | src/main/kotlin/delegates/ServerDelegate.kt:126-133 | the same guarantees for the loop after polling a transient status |
| `ServerDelegates.ActionSettles` | src/main/kotlin/delegates/ServerDelegate.kt:135-153 | the same guarantees for the loop after a start or stop |
| `ServerDelegates.RepeatedIncompatibleGivesUp` | src/main/kotlin/delegates/ServerDelegate.kt:138-151 | five starts that each raise an incompatible-state error, with the server read back as STOPPED each time, end in "Failed to start server after 5 attempts" |
| `ServerDelegates.CheckupSpec` | src/main/kotlin/delegates/ServerDelegate.kt:194-248 | a checkup never adds driver answers, and moves `lastCheckup` only to now, after a status exchange |
| `ServerDelegates.CheckupKeepsIdleBelowTimeout` | src/main/kotlin/delegates/ServerDelegate.kt:221-231 | the recorded idle time stays below the timeout across any checkup |
| `ServerDelegates.CheckupStopsIdleServer` | src/main/kotlin/delegates/ServerDelegate.kt:215-232 | an empty started server idle for the timeout is stopped, with idle time reset and the checkup recorded; below the timeout the time since the last checkup is added |
| `ServerDelegates.ServerDelegate.constructor` | src/main/kotlin/delegates/ServerDelegate.kt:26-32 | a delegate starts UNKNOWN, empty for no time, with no players |
| `ServerDelegates.ServerDelegate.WaitForServerToBe` | src/main/kotlin/delegates/ServerDelegate.kt:112-158 | UNKNOWN as the target is an IllegalArgument; otherwise outcome, status and driver answers are those of `Drive` from zero attempts; idle fields untouched |
| `ServerDelegates.ServerDelegate.PollWhileTransient` | src/main/kotlin/delegates/ServerDelegate.kt:126-133 | the polling loop keeps the outcome of `Drive`, reads at least one status and takes no action |
| `ServerDelegates.ServerDelegate.TakeAction` | src/main/kotlin/delegates/ServerDelegate.kt:135-153 | the action branch counts one attempt, uses one action, reads no status, and keeps the outcome of `Drive` |
| `ServerDelegates.ServerDelegate.Checkup` | src/main/kotlin/delegates/ServerDelegate.kt:194-248 | the fields and driver after a checkup are `CheckupSpec` of those before |
| `CommandLine.ParseValue` | src/main/kotlin/utils/CommandLine.kt:17-23 | a string parameter takes its argument verbatim; an int parameter's parse fails only with a number-format error |
| `CommandLine.Aliases` | src/main/kotlin/utils/CommandLine.kt:55-58 | `--x` names x; otherwise one dash is stripped, and a remaining name longer than one character is split into its single characters |
| `CommandLine.LookupAll` | src/main/kotlin/utils/CommandLine.kt:59-61 | succeeds iff every alias is registered, and then maps each to its option; otherwise the argument is "unexpected" |
| `CommandLine.MarkSeen` | src/main/kotlin/utils/CommandLine.kt:62 | succeeds iff none of the options was seen and none repeats, and then all are seen; otherwise one of them is named as "provided more than once" |
| `CommandLine.Step` | src/main/kotlin/utils/CommandLine.kt:53-75 | each iteration removes at least one argument and only adds to the seen options |
| `CommandLine.ParseNoArguments` | src/main/kotlin/utils/CommandLine.kt:47-50 | without arguments the result holds exactly the registered names with a default, and every flag is false |
| `CommandLine.FlagProvided` | src/main/kotlin/utils/CommandLine.kt:65-66 | a flag given by any of its names stores true under the option's name and marks it seen |
| `CommandLine.ParameterProvided` | src/main/kotlin/utils/CommandLine.kt:67-75 | a string parameter consumes exactly the next argument and stores it under its name; with none left it is "Missing parameter" |
| `CommandLine.DuplicateRejected` | src/main/kotlin/utils/CommandLine.kt:62 | the same flag given twice, through any two of its names, is refused |
| `CommandLine.MultiFlagWithParameterRejected` | src/main/kotlin/utils/CommandLine.kt:63-64 | with groups looked up as intended, a group of single-character names that includes a parameter is refused with the multi-flag message |
| `CommandLine.MultiFlagGroupSetsAll` | src/main/kotlin/utils/CommandLine.kt:57-66 | with groups looked up as intended, a group of two distinct flags sets both to true and marks both seen |
| `CommandLine.MultiFlagUnexpectedAsWritten` | src/main/kotlin/utils/CommandLine.kt:58-60 | as written, every group (and every bare word longer than one character) is "Got unexpected command line arg", whatever options are registered |
| `CommandLine.StepKeys` | src/main/kotlin/utils/CommandLine.kt:65-75 | an iteration adds keys only under names of registered options |
| `CommandLine.ResultKeys` | src/main/kotlin/utils/CommandLine.kt:46-78 | every key of the parse result is a seeded one or the name of a registered option |
| `CommandLine.CommandLineArgs.Add` | src/main/kotlin/utils/CommandLine.kt:30-32 | every name and alias of the option now maps to it, and every other name is as before |
| `CommandLine.CommandLineArgs.Parse` | src/main/kotlin/utils/CommandLine.kt:46-78 | the loop over the working arguments computes `ParseArgs` from the defaults with nothing seen |
| `CommandLine.Get` | src/main/kotlin/utils/CommandLine.kt:35-43 | returns the stored value iff it is present with the requested type; otherwise the error names the type found, or null |
| `Extensions.RetrieveOutcomes` | src/main/kotlin/utils/Extensions.kt:16-20 | a defined property is cast whatever the default; an undefined one gives the default whatever the cast; only undefined without a default is a misconfiguration naming the property |
| `Extensions.RetrieveStringOutcomes` | src/main/kotlin/utils/Extensions.kt:24 | the string overload returns a defined property verbatim, else the default, else the misconfiguration |
| `Extensions.AssociateNotNullKeys` | src/main/kotlin/utils/Extensions.kt:57-58 | the map's keys are exactly those of the non-null pairs |
| `Extensions.AssociateNotNullLastWins` | src/main/kotlin/utils/Extensions.kt:57-58 | a key maps to the value of its last pair |
| `ConfigurationSource.ConfigurableProperty.constructor` | src/main/kotlin/config/ConfigurationSource.kt:18-23 | a new property is uninitialised with no value |
| `ConfigurationSource.ConfigurableProperty.GetValue` | src/main/kotlin/config/ConfigurationSource.kt:25-36 | an uninitialised property is resolved by `retrieve` under its annotation key or name, and cached on success; a cached value is returned unchanged; a failed call caches nothing |
| `ConfigurationSource.NewProperty` | src/main/kotlin/config/ConfigurationSource.kt:39-40 | `property(default, conversion)` is a fresh uninitialised property with them |
| `ConfigurationSource.NewStringProperty` | src/main/kotlin/config/ConfigurationSource.kt:42 | `property(default)` converts with the identity |

## Left out

- Socket I/O is not modelled. The accept loop, `openSocket`, `getState` and
  `isAcceptingConnections` are absent. `getState` appears only as the player
  count the driver oracle reports, and a failed exchange as `None`.
- `withTimeout(TIMEOUT)` around `readAvailable` in `consume` is left out:
  every read is assumed to arrive in time.
- `PacketQueues.PacketQueue.Consume`: the 3-second read timeout is not
  modelled, so the method never fails with a timeout.
- Concurrency is left out. This covers the `Mutex` of `waitForServerToBe`,
  the `launch`ed start/stop (modelled as one atomic step that runs to its end
  before the loop continues), the `monitor`/metronome loop, `delay` and
  `BACKOFF`, and `ActiveConnectionManager.kt`.
- `ServerDelegates.Poll`: the 60-second transition timeout is modelled as at
  most 60 status reads, one a second, assuming driver calls take no time.
- The driver is an oracle of finite answer sequences. Running out of answers
  is the extra error `DriverExhausted`, which the source does not have; it
  only makes the model's recursion well founded.
- `protocol/ServerDelegate.kt` and `protocol/Exchange.kt`, the superseded
  delegate and the per-connection exchange, are not part of this model.
- `getServerAddress`, `ServerDelegate.load` and `ServerDelegateInjector.kt`
  (reflection), and the AWS, local and dummy delegates, are not part of this
  model.
- Reflection is left out: property discovery in `Packet.encode` (properties
  are given explicitly), `interpretAs`, and `Extensions.loadInto`. The
  `SIZE_BYTES` lookup of `numberFieldCreator` is replaced by constants 1, 2,
  8 and 8.
- `Field.Json` is not in the source. The `ServerState` field is encoded as a
  string of its JSON text. kotlinx.serialization is not modelled.
- `Packets.EncodePacket`: a packet too large for a JVM `ByteBuffer` (over
  2^31 − 6 bytes) fails with `IllegalArgument("Packet too large")`, whereas
  the JVM would fail inside `ByteBuffer.allocate` with its own message.
- `CommandLine.ParseValue`: `String.toInt()` is modelled for ASCII digits
  with an optional sign; non-ASCII Unicode digits, which Java also accepts,
  are not.
- `CommandLine.MarkSeen`: options are compared as values, while the source's
  `seen` set compares `Option` objects by identity. Two distinct options with
  equal names, aliases, kind and default count as one.
- `CommandLine.CommandLineArgs.Parse`: the "Impossible state" branch and the
  null-parse branch of `parse` cannot be reached and are not modelled.
- `ConfigurationSource.ConfigurableProperty.GetValue`: `synchronized` is left
  out; each call is atomic. The default-value log line is left out.
- `Extensions.RetrieveOutcomes`: a cast returning null for a nullable `T`,
  which falls through to the default, is not modelled; casts return a value
  or fail.
- Logging (`log.info`, `log.debug`) is left out throughout, and so are
  `String.capitalize`, `String.toDuration` and the filesystem configuration
  loaders.
- Floating point is left out. The fill ratio `position / capacity` against
  0.75 and 0.25 is restated as `4·position ≥ 3·capacity` and
  `4·position ≤ capacity`.
- `PacketQueues.PacketQueue.ShrinkIfLow` requires a capacity of at least 2.
  It is called only after a packet has been taken, and a packet occupies at
  least 2 bytes of the buffer, so this always holds there.
- `Field.EncodeString`: the conversion of a Kotlin `String` to UTF-8
  (`toByteArray(Charsets.UTF_8)`) is not modelled. String fields are carried
  as their UTF-8 bytes, so `Field.StringRoundTrip` is a round trip of bytes,
  not of Kotlin strings.
- `Field.ParseString`: rejecting a negative declared length with
  `InvalidData("Negative string length")` is a choice of the corrected
  model. The code as written returns "" for a negative length
  (Field.kt:55-57), and `Field.ParseStringAsWritten` keeps that.
- Resource limits are not modelled. `RawPacket.from` allocates the payload
  buffer (Packet.kt:78) before copying any byte, so a huge declared length
  can raise `OutOfMemoryError`. That is not an `Exception`, so it escapes
  `from`. `Packets.ExtractFramed` instead reports an underflow and waits for
  more bytes.
- `ServerDelegates.Driver.GetCurrentStatus`: the oracle's statuses are plain
  values, so a status read fails only when the answers run out. The model
  cannot express a failed status read followed by a successful one, as in
  the checkup's retry after a failed exchange (ServerDelegate.kt:233-239,
  then :199-205).
- Kotlin `Duration` arithmetic saturates at its bounds; idle time here is an
  unbounded integer of milliseconds.

## Findings

| source | as written | input that shows it | evidently intended | confidence | as-written member | corrected member |
|---|---|---|---|---|---|---|
| src/main/kotlin/protocol/packet/LegacyProtocol.kt:23 | returns null when the first 27 bytes EQUAL the signature, and parses anything else as a ping | the signature followed by `00 00` gives null; 29 zero bytes give a ping with id 0xFE | return null when the signature is absent, as the doc comment says (`LegacyPingOutcomes`, `LegacyPingRoundTrip`) | medium, not executed: the null-for-a-genuine-ping half depends on the undefined `Buffer` comparing its elements equal to `Int` values, which a `List<Byte>` never does | `LegacyProtocol.InvertedSignatureTest` | `LegacyProtocol.ParseLegacyPing` |
| src/main/kotlin/protocol/packet/Field.kt:27 | the guard `offset > buffer.size` lets a read at exactly `buffer.size` through, and `buffer[offset]` fails with an index error | any proper prefix of a VarInt encoding, e.g. `[0x80]` | report an incomplete buffer at the end of the data (`VarIntGuardedRoundTrip`) | high, not executed | `Field.VarIntPastTheEnd` | `Field.VarIntAtGuarded` |
| src/main/kotlin/protocol/packet/Field.kt:56-57 | `String.parse` leaves the offset after the length prefix and joins the characters with ", " | `[0x02, 0x41, 0x42]` parses as "A, B" with offset 1 | return the string's bytes and advance past them (`StringRoundTrip`) | high, not executed | `Field.StringParseAsWrittenExample` | `Field.ParseString` |
| src/main/kotlin/protocol/packet/Field.kt:78 | `byte.toULong()` sign-extends bytes of 0x80 and above before shifting | UnsignedShort 128 encodes as `00 80` and parses back as 65408 | read each byte as unsigned (`NumberRoundTrip`) | high, not executed | `Field.SignExtensionBreaksRoundTrip` | `Field.ParseNumber` |
| src/main/kotlin/protocol/PacketQueue.kt:53 | `put(buffer)` copies the bytes from position to limit, the unused tail, into the bigger buffer | 192 bytes received into a 256-byte buffer become its 64 unused bytes | flip the buffer first, as `shrinkIfLow` does, keeping the bytes received | high, not executed | `PacketQueues.GrowAsWrittenLosesContent` | `PacketQueues.PacketQueue.GrowIfFilled` |
| src/main/kotlin/protocol/packet/Packet.kt:88 | only `BufferUnderflowException` is turned into null, so the legacy parser's `IncompleteBufferException` escapes `from` | 28 bytes `1e 00 00 …` of a standard packet still arriving (as written) | a partial legacy ping waits for more bytes like any other partial packet (`ExtractExtends`, `PacketRoundTrip`) | medium, not executed | `Packets.PartialPacketEscapesAsWritten` | `Packets.Extract` |
| src/main/kotlin/utils/CommandLine.kt:58-60 | `name.toList()` gives `Char`s, which are looked up in the `String`-keyed option map, so no character of a group is ever found | `-ab` with flags `a` and `b` registered fails with "Got unexpected command line arg -ab" | look each character up as its one-character name, so `-ab` sets both flags (`MultiFlagGroupSetsAll`) and a group holding a parameter reaches the multi-flag check (`MultiFlagWithParameterRejected`) | high, not executed | `CommandLine.MultiFlagUnexpectedAsWritten` | `CommandLine.Step` |
