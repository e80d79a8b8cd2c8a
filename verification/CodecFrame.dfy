/** The framing every codec puts around its compressed body. */
module CodecFrame {
  import opened Core
  import opened Bytes
  import opened Crc32

  datatype CodecId = Raw | Rle | BitPack | DeltaFor | Xor {
    function Code(): byte {
      match this
      case Raw => 0
      case Rle => 1
      case BitPack => 2
      case DeltaFor => 3
      case Xor => 4
    }
  }

  datatype CodecError =
    | Incomplete(needed: nat, available: nat)
    | InvalidMagic
    | UnsupportedVersion
    | ChecksumMismatch
    | LengthMismatch(expected: nat, actual: nat)
    | UnknownCodec
    | InvalidData
    | OutputTooLarge

  const MAGIC: seq<byte> := [84, 78, 67, 88] // "TNCX"
  const VERSION: byte := 1
  const HEADER := 20

  /** Magic, codec, version, flags, original length and body checksum. */
  function Prelude(id: CodecId, originalLen: nat, body: seq<byte>): (r: seq<byte>)
    ensures |r| == 16
  {
    MAGIC + [id.Code(), VERSION] + Le(0, 2) + Le(originalLen, 4) + Le(Crc(body), 4)
  }

  function FrameCompressed(id: CodecId, originalLen: nat, body: seq<byte>): Result<seq<byte>, CodecError> {
    if originalLen >= U32 then Err(OutputTooLarge)
    else
      var p := Prelude(id, originalLen, body);
      Ok(p + Le(Crc(p), 4) + body)
  }

  /** Validates the frame and extracts the body. */
  function VerifyFrame(id: CodecId, compressed: seq<byte>, expectedLen: nat): Result<seq<byte>, CodecError> {
    if |compressed| < HEADER then Err(Incomplete(HEADER, |compressed|))
    else if compressed[..4] != MAGIC then Err(InvalidMagic)
    else if compressed[4] > 4 then Err(UnknownCodec)
    else if compressed[4] != id.Code() then Err(InvalidData)
    else if compressed[5] != VERSION then Err(UnsupportedVersion)
    else if Crc(compressed[..16]) != Get(compressed, 16, 4) then Err(ChecksumMismatch)
    else if Get(compressed, 8, 4) != expectedLen then Err(LengthMismatch(expectedLen, Get(compressed, 8, 4)))
    else if Crc(compressed[HEADER..]) != Get(compressed, 12, 4) then Err(ChecksumMismatch)
    else Ok(compressed[HEADER..])
  }

  /** Framing loses nothing: the body and the promised length come back. */
  lemma VerifyFramed(id: CodecId, len: nat, body: seq<byte>)
    requires len < U32
    ensures VerifyFrame(id, FrameCompressed(id, len, body).value, len) == Ok(body)
    ensures |FrameCompressed(id, len, body).value| == HEADER + |body|
  {
    var p := Prelude(id, len, body);
    var f := p + Le(Crc(p), 4) + body;
    assert f[..16] == p;
    assert f[..4] == MAGIC && f[4] == id.Code() && f[5] == VERSION;
    assert f[8..12] == p[8..12] == Le(len, 4);
    assert f[12..16] == p[12..16] == Le(Crc(body), 4);
    assert f[16..20] == Le(Crc(p), 4);
    assert f[HEADER..] == body;
    FieldRoundTrip(len, 4, U32);
    CrcIsWord(body);
    FieldRoundTrip(Crc(body), 4, U32);
    CrcIsWord(p);
    FieldRoundTrip(Crc(p), 4, U32);
  }

  // ----- Exactly which frames are accepted

  /** A frame with any two flag bytes; the encoder writes zeros and nobody reads them. */
  function Flagged(id: CodecId, flags: seq<byte>, len: nat, body: seq<byte>): seq<byte> {
    var p := MAGIC + [id.Code(), VERSION] + flags + Le(len, 4) + Le(Crc(body), 4);
    p + Le(Crc(p), 4) + body
  }

  /** Verification accepts exactly the frames of this codec and length, and returns the framed body. */
  lemma VerifyExactly(id: CodecId, b: seq<byte>, len: nat, body: seq<byte>)
    ensures VerifyFrame(id, b, len) == Ok(body) <==>
            len < U32 && exists flags :: |flags| == 2 && b == Flagged(id, flags, len, body)
  {
    hide Flagged, VerifyFrame;
    if VerifyFrame(id, b, len) == Ok(body) {
      AcceptedIsFlagged(id, b, len, body);
    }
    if len < U32 {
      forall flags | |flags| == 2 && b == Flagged(id, flags, len, body)
        ensures VerifyFrame(id, b, len) == Ok(body)
      {
        FlaggedIsAccepted(id, flags, len, body);
      }
    }
  }

  lemma AcceptedIsFlagged(id: CodecId, b: seq<byte>, len: nat, body: seq<byte>)
    requires VerifyFrame(id, b, len) == Ok(body)
    ensures len < U32 && |b| >= HEADER && b == Flagged(id, b[6..8], len, body)
  {
    hide Crc, FromLe, Le;
    LeOfFromLe(b[8..12]);
    LeOfFromLe(b[12..16]);
    LeOfFromLe(b[16..20]);
    FitsWidths(len);
    assert b[..4] == MAGIC && b[4] == id.Code() by {
      CodesDiffer(id);
    }
    assert MAGIC + [id.Code(), VERSION] + b[6..8] + Le(len, 4) + Le(Crc(body), 4) == b[..16];
    assert b == b[..16] + b[16..20] + b[20..];
  }

  lemma CodesDiffer(id: CodecId)
    ensures id.Code() <= 4
  {
  }

  lemma FlaggedParts(id: CodecId, flags: seq<byte>, len: nat, body: seq<byte>)
    requires |flags| == 2 && len < U32
    ensures var b := Flagged(id, flags, len, body);
            && |b| == 20 + |body| && b[..4] == MAGIC && b[4] == id.Code() && b[5] == VERSION && b[6..8] == flags
            && Get(b, 8, 4) == len && Get(b, 12, 4) == Crc(body) && Get(b, 16, 4) == Crc(b[..16]) && b[20..] == body
  {
    hide Crc, FromLe, Le;
    var p := MAGIC + [id.Code(), VERSION] + flags + Le(len, 4) + Le(Crc(body), 4);
    var b := p + Le(Crc(p), 4) + body;
    assert b[..16] == p && b[16..20] == Le(Crc(p), 4) && b[20..] == body;
    assert b[6..8] == flags && b[8..12] == Le(len, 4) && b[12..16] == Le(Crc(body), 4);
    FieldRoundTrip(len, 4, U32);
    CrcIsWord(body);
    FieldRoundTrip(Crc(body), 4, U32);
    CrcIsWord(p);
    FieldRoundTrip(Crc(p), 4, U32);
  }

  lemma FlaggedIsAccepted(id: CodecId, flags: seq<byte>, len: nat, body: seq<byte>)
    requires |flags| == 2 && len < U32
    ensures VerifyFrame(id, Flagged(id, flags, len, body), len) == Ok(body)
  {
    hide Crc, Get, Flagged;
    FlaggedParts(id, flags, len, body);
    CodesDiffer(id);
  }

  /** The layout of a frame, byte by byte: magic "TNCX", codec, version, flags, the original length, and the
      checksums of the body and of the sixteen bytes before it. */
  lemma FrameLayout(id: CodecId, len: nat, body: seq<byte>)
    requires len < U32
    ensures FrameCompressed(id, len, body).Ok?
    ensures var b := FrameCompressed(id, len, body).value;
            && |b| == 20 + |body| && b[..4] == [84, 78, 67, 88] && b[5] == 1 && b[6] == 0 && b[7] == 0
            && b[4] == (match id case Raw => 0 case Rle => 1 case BitPack => 2 case DeltaFor => 3 case Xor => 4)
            && Quad(b[8], b[9], b[10], b[11]) == len
            && Quad(b[12], b[13], b[14], b[15]) == Crc(body)
            && Quad(b[16], b[17], b[18], b[19]) == Crc(b[..16]) && b[20..] == body
  {
    hide Crc, Get, Quad, FromLe;
    assert Le(0, 2) == [0, 0];
    var b := FrameCompressed(id, len, body).value;
    assert b == Flagged(id, [0, 0], len, body);
    FlaggedParts(id, [0, 0], len, body);
    hide Flagged, FrameCompressed, Le;
    FourBytes(b, 8);
    FourBytes(b, 12);
    FourBytes(b, 16);
    assert b[6..8] == [0, 0];
  }
}
