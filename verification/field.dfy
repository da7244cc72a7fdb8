/** The primitive field codecs of the wire protocol (protocol/packet/Field.kt):
    VarInt, length-prefixed strings and big-endian fixed-width integers,
    all over a list of bytes read from an offset. */
module Field {
  import opened Numeric
  import opened Exceptions

  /** A value read from a buffer, with the cursor position (`Offset.value`) after the read. */
  datatype Parsed<T> = Parsed(value: T, offset: nat)

  /** A JVM byte array: its length is an `Int`. */
  type ByteArray = s: seq<byte> | |s| <= INT_MAX

  // ---------------------------------------------------------------------------
  // VarInt encoding

  /** Unsigned LEB128: seven data bits per byte, least significant group first,
      the continuation bit 0x80 on every byte but the last. */
  function Leb128(u: nat): (bs: seq<byte>)
    ensures |bs| >= 1
    decreases u
  {
    if u < 0x80 then [u] else [u % 0x80 + 0x80] + Leb128(u / 0x80)
  }

  /** The number spelt by the data bits of `bs`, least significant group first:
      the reference reading of a group sequence, independent of any parser. */
  function GroupValue(bs: seq<byte>): nat
  {
    if bs == [] then 0 else bs[0] % 0x80 + 0x80 * GroupValue(bs[1..])
  }

  /** What `Field.VarInt.encode` emits: the LEB128 groups of the value's 32-bit pattern. */
  function VarIntBytes(v: int32): seq<byte>
  {
    Leb128(Unsigned32(v))
  }

  /** `Field.VarInt.encode`: peel seven bits off a 32-bit stack until it is empty. */
  method EncodeVarInt(data: int32) returns (buffer: seq<byte>)
    ensures buffer == VarIntBytes(data)
  {
    var bitStack: nat := Unsigned32(data);
    buffer := [];
    var more := true;
    while more
      invariant more ==> buffer + Leb128(bitStack) == VarIntBytes(data)
      invariant !more ==> buffer == VarIntBytes(data)
      decreases if more then bitStack + 1 else 0
    {
      var nextByte := bitStack % 0x80;
      bitStack := bitStack / 0x80;
      if bitStack != 0 {
        nextByte := nextByte + 0x80;
      }
      buffer := buffer + [nextByte];
      more := bitStack != 0;
    }
  }

  /** The encoding spells out its value, sets 0x80 exactly on the bytes before
      the last, and ends in a non-zero byte unless the value is zero. */
  lemma {:induction false} Leb128Layout(u: nat)
    ensures GroupValue(Leb128(u)) == u
    ensures forall i :: 0 <= i < |Leb128(u)| ==> (Leb128(u)[i] >= 0x80 <==> i < |Leb128(u)| - 1)
    ensures Leb128(u)[|Leb128(u)| - 1] != 0 || u == 0
    decreases u
  {
    if u >= 0x80 {
      var rest := Leb128(u / 0x80);
      Leb128Layout(u / 0x80);
      assert Leb128(u) == [u % 0x80 + 0x80] + rest;
      assert Leb128(u)[1..] == rest;
      forall i | 0 <= i < |Leb128(u)|
        ensures Leb128(u)[i] >= 0x80 <==> i < |Leb128(u)| - 1
      {
        if i > 0 {
          assert Leb128(u)[i] == rest[i - 1];
        }
      }
    }
  }

  /** The encoding fits in k bytes exactly when the value is below 2^(7k). */
  lemma {:induction false} Leb128Length(u: nat, k: nat)
    requires k >= 1
    ensures |Leb128(u)| <= k <==> u < Pow2(7 * k)
    decreases k
  {
    Pow2Add(7, 7 * (k - 1));
    Pow2Values();
    if u < 0x80 {
      Pow2Monotonic(7, 7 * k);
    } else if k == 1 {
    } else {
      Leb128Length(u / 0x80, k - 1);
      var p := Pow2(7 * (k - 1));
      assert Pow2(7 * k) == 0x80 * p;
      assert u == 0x80 * (u / 0x80) + u % 0x80;
      if u / 0x80 < p {
        assert u / 0x80 <= p - 1;
        assert u < 0x80 * p;
      } else {
        assert u >= 0x80 * p;
      }
    }
  }

  /** `VarInt.encode` emits the 32 bits seven at a time, low group first, with
      0x80 on every byte but the last. */
  lemma VarIntLayout(v: int32)
    ensures GroupValue(VarIntBytes(v)) == Unsigned32(v)
    ensures forall i :: 0 <= i < |VarIntBytes(v)| ==> (VarIntBytes(v)[i] >= 0x80 <==> i < |VarIntBytes(v)| - 1)
  {
    Leb128Layout(Unsigned32(v));
  }

  /** The encoding is one to five bytes long and minimal: negative values take
      all five, and only zero ends in a zero byte. */
  lemma VarIntSize(v: int32)
    ensures 1 <= |VarIntBytes(v)| <= 5
    ensures v < 0 ==> |VarIntBytes(v)| == 5
    ensures VarIntBytes(v)[|VarIntBytes(v)| - 1] != 0 || v == 0
  {
    var u := Unsigned32(v);
    Pow2Values();
    Leb128Length(u, 5);
    Leb128Layout(u);
    if v < 0 {
      Leb128Length(u, 4);
    }
  }

  /** Fixed points of the encoding: 0, 127, 128, 25565 and -1. */
  lemma VarIntExamples()
    ensures VarIntBytes(0) == [0x00]
    ensures VarIntBytes(127) == [0x7F]
    ensures VarIntBytes(128) == [0x80, 0x01]
    ensures VarIntBytes(25565) == [0xDD, 0xC7, 0x01]
    ensures VarIntBytes(-1) == [0xFF, 0xFF, 0xFF, 0xFF, 0x0F]
  {
  }

  // ---------------------------------------------------------------------------
  // VarInt decoding, as written

  /** The VarInt decoder after `bitsRead` bits have been read into `result`.
      The `>` guard means a read at exactly the end of the buffer is an index
      error, not an incomplete buffer. */
  function ReadVarInt(buffer: seq<byte>, offset: nat, bitsRead: nat, result: int): Result<Parsed<int32>>
    decreases |buffer| - offset
  {
    if bitsRead >= 32 then Err(InvalidData("VarInt is too big"))
    else if offset > |buffer| then Err(IncompleteBuffer)
    else if offset == |buffer| then Err(IndexOutOfBounds)
    else
      var nextByte := buffer[offset];
      var result' := result + (nextByte % 0x80) * Pow2(bitsRead);
      if nextByte >= 0x80 then ReadVarInt(buffer, offset + 1, bitsRead + 7, result')
      else Ok(Parsed(Wrap32(result'), offset + 1))
  }

  /** What `Field.VarInt.parse(buffer, offset)` returns, with the cursor after it. */
  function VarIntAt(buffer: seq<byte>, offset: nat): Result<Parsed<int32>>
  {
    ReadVarInt(buffer, offset, 0, 0)
  }

  /** `Field.VarInt.parse`: the do-while loop over the cursor. */
  method ParseVarInt(buffer: seq<byte>, offset: nat) returns (r: Result<Parsed<int32>>)
    ensures r == VarIntAt(buffer, offset)
  {
    var result := 0;
    var significantBitsRead := 0;
    var cursor := offset;
    while true
      invariant ReadVarInt(buffer, cursor, significantBitsRead, result) == VarIntAt(buffer, offset)
      decreases if cursor <= |buffer| then |buffer| - cursor else 0
    {
      if significantBitsRead >= 32 {
        return Err(InvalidData("VarInt is too big"));
      }
      if cursor > |buffer| {
        return Err(IncompleteBuffer);
      }
      if cursor == |buffer| {
        return Err(IndexOutOfBounds);
      }
      var nextByte := buffer[cursor];
      result := result + (nextByte % 0x80) * Pow2(significantBitsRead);
      cursor := cursor + 1;
      significantBitsRead := significantBitsRead + 7;
      if nextByte < 0x80 {
        return Ok(Parsed(Wrap32(result), cursor));
      }
    }
  }

  /** Reading the groups of `u` adds `u`, shifted past the bits already read, to the result. */
  lemma {:induction false} ReadLeb128(u: nat, buffer: seq<byte>, offset: nat, bitsRead: nat, result: int)
    requires offset <= |buffer| && Leb128(u) <= buffer[offset..]
    requires bitsRead + 7 * (|Leb128(u)| - 1) < 32
    ensures ReadVarInt(buffer, offset, bitsRead, result)
         == Ok(Parsed(Wrap32(result + u * Pow2(bitsRead)), offset + |Leb128(u)|))
    decreases u
  {
    var enc := Leb128(u);
    assert buffer[offset] == enc[0];
    if u >= 0x80 {
      var rest := Leb128(u / 0x80);
      assert enc == [u % 0x80 + 0x80] + rest;
      assert rest <= buffer[offset + 1..] by {
        forall i | 0 <= i < |rest|
          ensures rest[i] == buffer[offset + 1..][i]
        {
          assert rest[i] == enc[i + 1];
        }
      }
      var result' := result + (u % 0x80) * Pow2(bitsRead);
      ReadLeb128(u / 0x80, buffer, offset + 1, bitsRead + 7, result');
      NextGroupShift(u, bitsRead, result);
    }
  }

  /** Adding the low group at `bitsRead` and the rest seven bits higher adds the whole value. */
  lemma NextGroupShift(u: nat, bitsRead: nat, result: int)
    ensures result + (u % 0x80) * Pow2(bitsRead) + (u / 0x80) * Pow2(bitsRead + 7) == result + u * Pow2(bitsRead)
  {
    var p := Pow2(bitsRead);
    Pow2Add(bitsRead, 7);
    Pow2Values();
    assert Pow2(bitsRead + 7) == p * 0x80;
    assert (u / 0x80) * (p * 0x80) == (0x80 * (u / 0x80)) * p;
    assert (u % 0x80) * p + (0x80 * (u / 0x80)) * p == (u % 0x80 + 0x80 * (u / 0x80)) * p;
  }

  /** Round trip: decoding the encoding of v, wherever it sits in the buffer,
      yields v and moves the cursor past exactly the encoded bytes. */
  lemma VarIntRoundTrip(v: int32, buffer: seq<byte>, offset: nat)
    requires offset <= |buffer| && VarIntBytes(v) <= buffer[offset..]
    ensures VarIntAt(buffer, offset) == Ok(Parsed(v, offset + |VarIntBytes(v)|))
  {
    VarIntSize(v);
    ReadLeb128(Unsigned32(v), buffer, offset, 0, 0);
    Wrap32OfUnsigned(v);
  }

  /** The decoder, entered after j bytes, stops within 5 - j more bytes, and
      fails as too big when all of those carry the continuation bit. */
  lemma {:induction false} ReadVarIntBounds(buffer: seq<byte>, offset: nat, j: nat, result: int)
    requires j <= 5
    ensures var r := ReadVarInt(buffer, offset, 7 * j, result);
      r.Ok? ==> offset < r.value.offset <= offset + 5 - j
    ensures (offset + 5 - j <= |buffer| && forall i :: offset <= i < offset + 5 - j ==> buffer[i] >= 0x80)
      ==> ReadVarInt(buffer, offset, 7 * j, result) == Err(InvalidData("VarInt is too big"))
    decreases 5 - j
  {
    if j < 5 && offset < |buffer| && buffer[offset] >= 0x80 {
      ReadVarIntBounds(buffer, offset + 1, j + 1, result + (buffer[offset] % 0x80) * Pow2(7 * j));
    }
  }

  /** `VarInt.parse` never consumes more than five bytes; a sixth is refused as too big. */
  lemma VarIntAtMostFiveBytes(buffer: seq<byte>, offset: nat)
    ensures VarIntAt(buffer, offset).Ok? ==>
      offset < VarIntAt(buffer, offset).value.offset <= offset + 5
    ensures (offset + 5 <= |buffer| && forall i :: offset <= i < offset + 5 ==> buffer[i] >= 0x80)
      ==> VarIntAt(buffer, offset) == Err(InvalidData("VarInt is too big"))
  {
    ReadVarIntBounds(buffer, offset, 0, 0);
  }

  /** Bytes that all carry the continuation bit and run into the end of the
      buffer before 32 bits are read make the decoder index the end. */
  lemma {:induction false} ReadVarIntRunsOff(buffer: seq<byte>, offset: nat, j: nat, result: int)
    requires offset <= |buffer| && j + (|buffer| - offset) <= 4
    requires forall i :: offset <= i < |buffer| ==> buffer[i] >= 0x80
    ensures ReadVarInt(buffer, offset, 7 * j, result) == Err(IndexOutOfBounds)
    decreases |buffer| - offset
  {
    if offset < |buffer| {
      ReadVarIntRunsOff(buffer, offset + 1, j + 1, result + (buffer[offset] % 0x80) * Pow2(7 * j));
    }
  }

  /** Reading past the data: a cursor beyond the end is an incomplete buffer,
      but, because the guard is `>`, a truncated VarInt (any proper prefix of an
      encoding, the empty one included) ends in an index error instead. */
  lemma VarIntPastTheEnd(v: int32, buffer: seq<byte>, offset: nat)
    ensures offset > |buffer| ==> VarIntAt(buffer, offset) == Err(IncompleteBuffer)
    ensures offset <= |buffer| && buffer[offset..] < VarIntBytes(v)
      ==> VarIntAt(buffer, offset) == Err(IndexOutOfBounds)
  {
    if offset <= |buffer| && buffer[offset..] < VarIntBytes(v) {
      var enc := VarIntBytes(v);
      VarIntLayout(v);
      VarIntSize(v);
      forall i | offset <= i < |buffer|
        ensures buffer[i] >= 0x80
      {
        assert buffer[i] == buffer[offset..][i - offset] == enc[i - offset];
      }
      ReadVarIntRunsOff(buffer, offset, 0, 0);
    }
  }

  /** Started inside the data, the written decoder never reports an
      incomplete buffer: it fails only as too big or at the end of the data,
      and a value it reads ends inside the data. */
  lemma {:induction false} ReadVarIntInside(buffer: seq<byte>, offset: nat, bitsRead: nat, result: int)
    requires offset <= |buffer|
    ensures ReadVarInt(buffer, offset, bitsRead, result).Err? ==>
      ReadVarInt(buffer, offset, bitsRead, result).error in {IndexOutOfBounds, InvalidData("VarInt is too big")}
    ensures ReadVarInt(buffer, offset, bitsRead, result).Ok? ==>
      ReadVarInt(buffer, offset, bitsRead, result).value.offset <= |buffer|
    decreases |buffer| - offset
  {
    if bitsRead < 32 && offset < |buffer| && buffer[offset] >= 0x80 {
      ReadVarIntInside(buffer, offset + 1, bitsRead + 7, result + (buffer[offset] % 0x80) * Pow2(bitsRead));
    }
  }

  // ---------------------------------------------------------------------------
  // VarInt decoding with the bound checked as `>=` (the evident intent)

  /** The decoder with the end-of-data guard written `offset >= buffer.size`:
      every read past the data reports an incomplete buffer. */
  function ReadVarIntGuarded(buffer: seq<byte>, offset: nat, bitsRead: nat, result: int): Result<Parsed<int32>>
    decreases |buffer| - offset
  {
    if bitsRead >= 32 then Err(InvalidData("VarInt is too big"))
    else if offset >= |buffer| then Err(IncompleteBuffer)
    else
      var nextByte := buffer[offset];
      var result' := result + (nextByte % 0x80) * Pow2(bitsRead);
      if nextByte >= 0x80 then ReadVarIntGuarded(buffer, offset + 1, bitsRead + 7, result')
      else Ok(Parsed(Wrap32(result'), offset + 1))
  }

  function VarIntAtGuarded(buffer: seq<byte>, offset: nat): Result<Parsed<int32>>
  {
    ReadVarIntGuarded(buffer, offset, 0, 0)
  }

  /** The guarded decoder agrees with the written one except that the index
      error at the end of the data becomes an incomplete buffer. */
  lemma {:induction false} GuardedAgrees(buffer: seq<byte>, offset: nat, bitsRead: nat, result: int)
    ensures ReadVarIntGuarded(buffer, offset, bitsRead, result)
         == (if ReadVarInt(buffer, offset, bitsRead, result) == Err(IndexOutOfBounds) then Err(IncompleteBuffer)
             else ReadVarInt(buffer, offset, bitsRead, result))
    decreases |buffer| - offset
  {
    if bitsRead < 32 && offset < |buffer| && buffer[offset] >= 0x80 {
      GuardedAgrees(buffer, offset + 1, bitsRead + 7, result + (buffer[offset] % 0x80) * Pow2(bitsRead));
    }
  }

  /** The guarded decoder keeps the round trip and reports every proper prefix
      of an encoding as incomplete. */
  lemma VarIntGuardedRoundTrip(v: int32, buffer: seq<byte>, offset: nat)
    ensures offset <= |buffer| && VarIntBytes(v) <= buffer[offset..]
      ==> VarIntAtGuarded(buffer, offset) == Ok(Parsed(v, offset + |VarIntBytes(v)|))
    ensures offset <= |buffer| && buffer[offset..] < VarIntBytes(v)
      ==> VarIntAtGuarded(buffer, offset) == Err(IncompleteBuffer)
  {
    GuardedAgrees(buffer, offset, 0, 0);
    if offset <= |buffer| && VarIntBytes(v) <= buffer[offset..] {
      VarIntRoundTrip(v, buffer, offset);
    }
    VarIntPastTheEnd(v, buffer, offset);
  }

  /** Once the guarded decoder has an answer other than "incomplete", more data
      after the buffer does not change it. */
  lemma {:induction false} ReadVarIntGuardedExtends(buffer: seq<byte>, more: seq<byte>, offset: nat, bitsRead: nat, result: int)
    requires ReadVarIntGuarded(buffer, offset, bitsRead, result) != Err(IncompleteBuffer)
    ensures ReadVarIntGuarded(buffer + more, offset, bitsRead, result) == ReadVarIntGuarded(buffer, offset, bitsRead, result)
    decreases |buffer| - offset
  {
    if bitsRead < 32 && offset < |buffer| {
      assert (buffer + more)[offset] == buffer[offset];
      if buffer[offset] >= 0x80 {
        ReadVarIntGuardedExtends(buffer, more, offset + 1, bitsRead + 7, result + (buffer[offset] % 0x80) * Pow2(bitsRead));
      }
    }
  }

  lemma VarIntGuardedExtends(buffer: seq<byte>, more: seq<byte>, offset: nat)
    requires VarIntAtGuarded(buffer, offset) != Err(IncompleteBuffer)
    ensures VarIntAtGuarded(buffer + more, offset) == VarIntAtGuarded(buffer, offset)
  {
    ReadVarIntGuardedExtends(buffer, more, offset, 0, 0);
  }

  /** A successful guarded read ends inside the buffer, at most five bytes on. */
  lemma VarIntGuardedBounds(buffer: seq<byte>, offset: nat)
    ensures VarIntAtGuarded(buffer, offset).Ok? ==>
      offset < VarIntAtGuarded(buffer, offset).value.offset <= offset + 5
      && VarIntAtGuarded(buffer, offset).value.offset <= |buffer|
  {
    GuardedAgrees(buffer, offset, 0, 0);
    VarIntAtMostFiveBytes(buffer, offset);
    GuardedEndsInside(buffer, offset, 0, 0);
  }

  lemma {:induction false} GuardedEndsInside(buffer: seq<byte>, offset: nat, bitsRead: nat, result: int)
    ensures ReadVarIntGuarded(buffer, offset, bitsRead, result).Ok? ==>
      ReadVarIntGuarded(buffer, offset, bitsRead, result).value.offset <= |buffer|
    decreases |buffer| - offset
  {
    if bitsRead < 32 && offset < |buffer| && buffer[offset] >= 0x80 {
      GuardedEndsInside(buffer, offset + 1, bitsRead + 7, result + (buffer[offset] % 0x80) * Pow2(bitsRead));
    }
  }

  // ---------------------------------------------------------------------------
  // Strings

  /** `Field.String.encode`: the VarInt byte length of the UTF-8 form, then those bytes. */
  function EncodeString(utf8: ByteArray): seq<byte>
  {
    VarIntBytes(|utf8|) + utf8
  }

  /** Kotlin's `byte.toUInt().toInt().toChar()`: a byte from 0x80 up is sign-extended,
      so it becomes the character 0xFF00 + b. */
  function ByteToChar(b: byte): (c: char)
    ensures b < 0x80 ==> c as int == b
    ensures b >= 0x80 ==> c as int == 0xFF00 + b
  {
    if b < 0x80 then b as char else (0xFF00 + b) as char
  }

  /** `joinToString()` with its default separator ", ". */
  function JoinToString(bs: seq<byte>): string
  {
    if |bs| == 0 then ""
    else if |bs| == 1 then [ByteToChar(bs[0])]
    else [ByteToChar(bs[0])] + ", " + JoinToString(bs[1..])
  }

  /** `Field.String.parse` as written: the offset stays just after the length
      prefix, and the text is the bytes' characters joined by ", ". */
  function ParseStringAsWritten(buffer: seq<byte>, offset: nat): Result<Parsed<string>>
  {
    match VarIntAt(buffer, offset)
    case Err(e) => Err(e)
    case Ok(Parsed(length, after)) =>
      var end := Wrap32(after + length);
      if end > |buffer| then Err(IncompleteBuffer)
      else if end <= after then Ok(Parsed("", after))
      else Ok(Parsed(JoinToString(buffer[after..end]), after))
  }

  /** `Field.String.parse` as evidently intended: the declared number of bytes,
      with the cursor moved past them. */
  function ParseString(buffer: seq<byte>, offset: nat): Result<Parsed<seq<byte>>>
  {
    match VarIntAtGuarded(buffer, offset)
    case Err(e) => Err(e)
    case Ok(Parsed(length, after)) =>
      if length < 0 then Err(InvalidData("Negative string length"))
      else if after + length > |buffer| then Err(IncompleteBuffer)
      else Ok(Parsed(buffer[after..after + length], after + length))
  }

  /** A declared length that runs past the data is an incomplete buffer, in
      both readings. */
  lemma StringOverrunIsIncomplete(buffer: seq<byte>, offset: nat, length: int32, after: nat)
    requires VarIntAt(buffer, offset) == Ok(Parsed(length, after))
    requires length >= 0 && |buffer| < after + length <= INT_MAX
    ensures ParseStringAsWritten(buffer, offset) == Err(IncompleteBuffer)
    ensures ParseString(buffer, offset) == Err(IncompleteBuffer)
  {
    GuardedAgrees(buffer, offset, 0, 0);
  }

  /** Round trip of the corrected reader: the encoded bytes come back and the
      cursor ends just after them. The empty string encodes as a single zero. */
  lemma StringRoundTrip(utf8: ByteArray, buffer: seq<byte>, offset: nat)
    ensures EncodeString([]) == [0x00]
    ensures offset <= |buffer| && EncodeString(utf8) <= buffer[offset..]
      ==> ParseString(buffer, offset).Ok? && ParseString(buffer, offset).value.value == utf8
          && ParseString(buffer, offset).value.offset == offset + |EncodeString(utf8)|
  {
    assert VarIntBytes(0) == [0x00];
    if offset <= |buffer| && EncodeString(utf8) <= buffer[offset..] {
      var prefix := VarIntBytes(|utf8|);
      assert prefix <= buffer[offset..];
      VarIntGuardedRoundTrip(|utf8|, buffer, offset);
      var after := offset + |prefix|;
      assert buffer[after..after + |utf8|] == utf8 by {
        forall i | 0 <= i < |utf8|
          ensures buffer[after + i] == utf8[i]
        {
          assert buffer[offset..][|prefix| + i] == EncodeString(utf8)[|prefix| + i];
        }
      }
    }
  }

  /** The written reader neither advances past the text nor returns it: "AB"
      comes back as "A, B" with the cursor on the first text byte. */
  lemma StringParseAsWrittenExample()
    ensures EncodeString([0x41, 0x42]) == [0x02, 0x41, 0x42]
    ensures ParseStringAsWritten([0x02, 0x41, 0x42], 0) == Ok(Parsed("A, B", 1))
    ensures ParseString([0x02, 0x41, 0x42], 0) == Ok(Parsed([0x41, 0x42], 3))
  {
    assert VarIntBytes(2) == [0x02];
    var buffer := [0x02, 0x41, 0x42];
    assert VarIntAt(buffer, 0) == Ok(Parsed(2, 1));
    assert Wrap32(1 + 2) == 3;
    assert buffer[1..3] == [0x41, 0x42];
    assert ByteToChar(0x41) == 'A' && ByteToChar(0x42) == 'B';
    assert [0x41, 0x42][1..] == [0x42];
    assert JoinToString([0x42]) == "B";
    assert JoinToString([0x41, 0x42]) == "A, B";
    assert VarIntAtGuarded(buffer, 0) == Ok(Parsed(2, 1));
  }

  // ---------------------------------------------------------------------------
  // Fixed-width numbers

  datatype NumberField = UnsignedByte | UnsignedShort | UnsignedLong | SignedLong

  /** The `SIZE_BYTES` constant of each number class. */
  function SizeBytes(f: NumberField): nat
  {
    match f
    case UnsignedByte => 1
    case UnsignedShort => 2
    case UnsignedLong => 8
    case SignedLong => 8
  }

  /** The values of each number class. */
  predicate Fits(f: NumberField, x: int)
  {
    match f
    case UnsignedByte => 0 <= x < 0x100
    case UnsignedShort => 0 <= x < 0x1_0000
    case UnsignedLong => 0 <= x < TWO_64
    case SignedLong => -0x8000_0000_0000_0000 <= x < 0x8000_0000_0000_0000
  }

  /** `toULong`: unsigned classes widen unchanged, `Long` keeps its bit pattern. */
  function ToULong(f: NumberField, x: int): (u: nat)
    requires Fits(f, x)
    ensures u < Pow2(8 * SizeBytes(f))
  {
    Pow2Values64();
    if x < 0 then x + TWO_64 else x
  }

  /** `fromULong`: `toUByte`/`toUShort` keep the low bits, `toLong` reads the pattern signed. */
  function FromULong(f: NumberField, u: nat): (x: int)
    requires u < TWO_64
    ensures Fits(f, x)
  {
    match f
    case UnsignedByte => u % 0x100
    case UnsignedShort => u % 0x1_0000
    case UnsignedLong => u
    case SignedLong => if u >= 0x8000_0000_0000_0000 then u - TWO_64 else u
  }

  lemma Pow2Values64()
    ensures Pow2(8) == 0x100 && Pow2(16) == 0x1_0000 && Pow2(64) == TWO_64
  {
    Pow2Values();
    Pow2Add(8, 8);
    Pow2Add(32, 32);
  }

  /** The low n bytes of u, most significant first. */
  function BigEndian(u: nat, n: nat): (bs: seq<byte>)
    ensures |bs| == n
  {
    if n == 0 then [] else BigEndian(u / 0x100, n - 1) + [u % 0x100]
  }

  /** The unsigned value of a big-endian byte sequence. */
  function BigEndianValue(bs: seq<byte>): nat
  {
    if bs == [] then 0 else BigEndianValue(bs[..|bs| - 1]) * 0x100 + bs[|bs| - 1]
  }

  /** Fixed-width `encode`: exactly SIZE_BYTES bytes of the value's pattern, most significant first. */
  function EncodeNumber(f: NumberField, x: int): seq<byte>
    requires Fits(f, x)
  {
    BigEndian(ToULong(f, x), SizeBytes(f))
  }

  /** `Byte.toULong()`: a byte from 0x80 up is sign-extended to 64 bits. */
  function SignExtend(b: byte): nat
  {
    if b < 0x80 then b else b + TWO_64 - 0x100
  }

  /** The sum of the sign-extended bytes, each shifted to its place, in 64-bit
      unsigned arithmetic (Horner's form of `mapIndexed { ... }.sum()`). */
  function SignExtendedSum(bs: seq<byte>): (s: nat)
    ensures s < TWO_64
  {
    if bs == [] then 0
    else (SignExtendedSum(bs[..|bs| - 1]) * 0x100 + SignExtend(bs[|bs| - 1])) % TWO_64
  }

  /** Fixed-width `parse` as written: reads SIZE_BYTES bytes at the offset without
      moving it, sign-extending every byte before summing. */
  function ParseNumberAsWritten(f: NumberField, buffer: seq<byte>, offset: nat): Result<int>
  {
    if offset + SizeBytes(f) > |buffer| then Err(IndexOutOfBounds)
    else Ok(FromULong(f, SignExtendedSum(buffer[offset..offset + SizeBytes(f)])))
  }

  /** Fixed-width `parse` with each byte zero-extended, as evidently intended. */
  function ParseNumber(f: NumberField, buffer: seq<byte>, offset: nat): Result<int>
  {
    if offset + SizeBytes(f) > |buffer| then Err(IndexOutOfBounds)
    else
      BigEndianBounded(buffer[offset..offset + SizeBytes(f)]);
      Pow2Values64();
      Ok(FromULong(f, BigEndianValue(buffer[offset..offset + SizeBytes(f)])))
  }

  lemma {:induction false} BigEndianBounded(bs: seq<byte>)
    ensures BigEndianValue(bs) < Pow2(8 * |bs|)
  {
    if bs != [] {
      var init := bs[..|bs| - 1];
      BigEndianBounded(init);
      Pow2Add(8 * |init|, 8);
      Pow2Values();
      assert BigEndianValue(bs) <= (Pow2(8 * |init|) - 1) * 0x100 + 0xFF;
    }
  }

  /** The big-endian bytes spell the value modulo 2^(8n). */
  lemma {:induction false} BigEndianSpells(u: nat, n: nat)
    ensures BigEndianValue(BigEndian(u, n)) == u % Pow2(8 * n)
  {
    if n > 0 {
      var init := BigEndian(u / 0x100, n - 1);
      assert BigEndian(u, n)[..n - 1] == init;
      BigEndianSpells(u / 0x100, n - 1);
      Pow2Add(8 * (n - 1), 8);
      Pow2Values();
      ModOfShifted(u, Pow2(8 * (n - 1)));
    }
  }

  /** Encoding emits exactly SIZE_BYTES bytes, most significant first, that spell the value's pattern. */
  lemma NumberLayout(f: NumberField, x: int)
    requires Fits(f, x)
    ensures |EncodeNumber(f, x)| == SizeBytes(f)
    ensures BigEndianValue(EncodeNumber(f, x)) == ToULong(f, x)
  {
    var u, n := ToULong(f, x), SizeBytes(f);
    BigEndianSpells(u, n);
    DivModUnique(u, Pow2(8 * n), 0, u);
  }

  /** Round trip of the corrected reader for every number class and offset;
      the cursor is not part of the answer, as the reader never moves it. */
  lemma NumberRoundTrip(f: NumberField, x: int, buffer: seq<byte>, offset: nat)
    requires Fits(f, x)
    requires offset <= |buffer| && EncodeNumber(f, x) <= buffer[offset..]
    ensures ParseNumber(f, buffer, offset) == Ok(x)
  {
    var enc := EncodeNumber(f, x);
    NumberLayout(f, x);
    assert buffer[offset..offset + SizeBytes(f)] == enc;
    Pow2Values64();
  }

  /** The written reader round-trips unsigned bytes. */
  lemma UnsignedByteRoundTripAsWritten(x: byte, buffer: seq<byte>, offset: nat)
    requires offset <= |buffer| && EncodeNumber(UnsignedByte, x) <= buffer[offset..]
    ensures ParseNumberAsWritten(UnsignedByte, buffer, offset) == Ok(x)
  {
    var enc := EncodeNumber(UnsignedByte, x);
    assert enc == [x];
    assert buffer[offset..offset + 1] == [x];
    assert SignExtendedSum([x]) == SignExtend(x) by {
      assert [x][..0] == [];
    }
  }

  /** Sign extension breaks the round trip of the wider classes: the short 128
      reads back as 65408 and the long 128 as -128. */
  lemma SignExtensionBreaksRoundTrip()
    ensures EncodeNumber(UnsignedShort, 128) == [0x00, 0x80]
    ensures ParseNumberAsWritten(UnsignedShort, [0x00, 0x80], 0) == Ok(65408)
    ensures ParseNumber(UnsignedShort, [0x00, 0x80], 0) == Ok(128)
    ensures EncodeNumber(SignedLong, 128) == [0, 0, 0, 0, 0, 0, 0, 0x80]
    ensures ParseNumberAsWritten(SignedLong, [0, 0, 0, 0, 0, 0, 0, 0x80], 0) == Ok(-128)
  {
    var short := [0x00, 0x80];
    assert short[0..2] == short;
    assert short[..1] == [0x00];
    assert [0x00][..0] == [];
    var long := [0, 0, 0, 0, 0, 0, 0, 0x80];
    assert long[0..8] == long;
    var zeros := [0, 0, 0, 0, 0, 0, 0];
    assert long[..7] == zeros;
    ZerosSumToZero(zeros);
  }

  lemma {:induction false} ZerosSumToZero(bs: seq<byte>)
    requires forall i :: 0 <= i < |bs| ==> bs[i] == 0
    ensures SignExtendedSum(bs) == 0
  {
    if bs != [] {
      ZerosSumToZero(bs[..|bs| - 1]);
    }
  }
}
