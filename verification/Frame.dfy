/** The 10-byte frame header: layout, encoder, decoder. */
module Frame {
  import opened Wrappers
  import opened Bytes
  import opened Buffers

  const MAGIC_BYTE: byte := 0x49
  const PROTOCOL_VERSION: byte := 0x01

  const TYPE_L3_TUN_DATAGRAM: byte := 0x04
  const TYPE_FILE_MANIFEST: byte := 0x05
  const TYPE_FILE_CHUNK_PAYLOAD: byte := 0x06

  const HEADER_SIZE := 10

  datatype FrameHeader = FrameHeader(frameType: byte, flags: byte, streamId: u16, seqNum: u32)

  datatype DecodeError = BufferTooSmall | InvalidMagic(magic: byte) | ProtocolMismatch(version: byte)

  /** The layout on the wire. */
  function Encode(h: FrameHeader): (r: bytes)
    ensures |r| == HEADER_SIZE
  {
    [MAGIC_BYTE, PROTOCOL_VERSION, h.frameType, h.flags] + U16ToBe(h.streamId) + U32ToBe(h.seqNum)
  }

  function Decode(b: bytes): Result<FrameHeader, DecodeError> {
    if |b| < HEADER_SIZE then Failure(BufferTooSmall)
    else if b[0] != MAGIC_BYTE then Failure(InvalidMagic(b[0]))
    else if b[1] != PROTOCOL_VERSION then Failure(ProtocolMismatch(b[1]))
    else Success(FrameHeader(b[2], b[3], U16FromBe(b[4..6]), U32FromBe(b[6..10])))
  }

  method EncodeHeader(h: FrameHeader, buf: ByteBuffer)
    modifies buf
    ensures buf.data == old(buf.data) + Encode(h)
  {
    buf.PutU8(MAGIC_BYTE);
    buf.PutU8(PROTOCOL_VERSION);
    buf.PutU8(h.frameType);
    buf.PutU8(h.flags);
    buf.PutU16(h.streamId);
    buf.PutU32(h.seqNum);
    assert buf.data == old(buf.data) + Encode(h);
  }

  /** Reads fail one field at a time, so a bad magic byte leaves the cursor after one byte
      and a bad version after two. */
  method DecodeHeader(cursor: Cursor) returns (r: Result<FrameHeader, DecodeError>)
    requires cursor.Valid()
    modifies cursor
    ensures cursor.Valid()
    ensures r == Decode(old(cursor.Rest()))
    ensures cursor.pos == old(cursor.pos) + match r {
      case Success(_) => HEADER_SIZE
      case Failure(BufferTooSmall) => 0
      case Failure(InvalidMagic(_)) => 1
      case Failure(ProtocolMismatch(_)) => 2
    }
  {
    ghost var input := cursor.Rest();
    if |cursor.Rest()| < HEADER_SIZE {
      return Failure(BufferTooSmall);
    }
    var magic := cursor.GetU8();
    if magic != MAGIC_BYTE {
      return Failure(InvalidMagic(magic));
    }
    var version := cursor.GetU8();
    if version != PROTOCOL_VERSION {
      return Failure(ProtocolMismatch(version));
    }
    var frameType := cursor.GetU8();
    var flags := cursor.GetU8();
    assert cursor.Rest() == input[4..];
    assert input[4..][..2] == input[4..6] && input[6..][..4] == input[6..10];
    var streamId := cursor.GetU16();
    assert cursor.Rest() == input[6..];
    var seqNum := cursor.GetU32();
    r := Success(FrameHeader(frameType, flags, streamId, seqNum));
  }

  /** Decoding is a left inverse of encoding, whatever follows the header. */
  lemma DecodeEncoded(h: FrameHeader, tail: bytes)
    ensures Decode(Encode(h) + tail) == Success(h)
  {
    var b := Encode(h) + tail;
    assert b[4..6] == U16ToBe(h.streamId) && b[6..10] == U32ToBe(h.seqNum);
    U16RoundTrip(h.streamId, b[4..6]);
    U32RoundTrip(h.seqNum, b[6..10]);
  }

  /** Only encodings decode: ten bytes that decode are the encoding of what they decode to. */
  lemma EncodeDecoded(b: bytes)
    requires |b| == HEADER_SIZE && Decode(b).Success?
    ensures Encode(Decode(b).value) == b
  {
    U16RoundTrip(0, b[4..6]);
    U32RoundTrip(0, b[6..10]);
    assert b == [b[0], b[1], b[2], b[3]] + b[4..6] + b[6..10];
  }

  /** Decoding looks at the first ten bytes only. */
  lemma DecodePrefix(b: bytes)
    requires |b| >= HEADER_SIZE
    ensures Decode(b) == Decode(b[..HEADER_SIZE])
  {
    var p := b[..HEADER_SIZE];
    assert p[4..6] == b[4..6] && p[6..10] == b[6..10];
  }

  /** Exactly which byte strings are accepted, and that nothing else shares a header:
      a buffer decodes to h if and only if it starts with h's encoding. */
  lemma DecodesToIff(b: bytes, h: FrameHeader)
    ensures Decode(b) == Success(h) <==> Encode(h) <= b
  {
    if Encode(h) <= b {
      assert b == Encode(h) + b[HEADER_SIZE..];
      DecodeEncoded(h, b[HEADER_SIZE..]);
    } else if Decode(b).Success? {
      DecodePrefix(b);
      EncodeDecoded(b[..HEADER_SIZE]);
    }
  }

  /** The header byte by byte, words in network order. */
  lemma Layout(h: FrameHeader)
    ensures Encode(h) == [0x49, 0x01, h.frameType, h.flags, h.streamId / 0x100, h.streamId % 0x100,
                          h.seqNum / 0x100_0000, h.seqNum / 0x1_0000 % 0x100, h.seqNum / 0x100 % 0x100,
                          h.seqNum % 0x100]
  {
    BigEndian(h.seqNum);
  }

  /** What is refused, and why: too short, then the magic byte, then the version. */
  lemma RefusedBecause(b: bytes)
    ensures Decode(b).Success? <==> |b| >= 10 && b[0] == 0x49 && b[1] == 0x01
    ensures Decode(b) == Failure(BufferTooSmall) <==> |b| < 10
    ensures |b| >= 10 && b[0] != 0x49 ==> Decode(b) == Failure(InvalidMagic(b[0]))
    ensures |b| >= 10 && b[0] == 0x49 && b[1] != 0x01 ==> Decode(b) == Failure(ProtocolMismatch(b[1]))
  {
  }
}
