/** The packet decoders accept encodings and nothing else. */
module TnpExact {
  import opened Core
  import opened Bytes
  import opened Crc32
  import opened TnpFrame
  import TnpChannel
  import TnpClient

  /** The packet whose fields stand in the buffer, with `n` bytes of payload. */
  function Fields(b: seq<byte>, n: nat): Packet
    requires OVERHEAD + n <= |b|
  {
    Packet(Get(b, 4, 2), Get(b, 6, 2), Get(b, 8, 4), b[HEADER..HEADER + n])
  }

  /** The layout of a packet, byte by byte: magic "TNPP", then version, type, stream and length in little-endian
      order, the payload, and the checksum of everything before it. */
  lemma FrameLayout(p: Packet)
    requires p.InRange() && |p.payload| < U32
    ensures var f, n := Frame(p), |p.payload|;
            && |f| == 20 + n && f[..4] == [84, 78, 80, 80]
            && f[4] as nat + 256 * f[5] as nat == p.version
            && f[6] as nat + 256 * f[7] as nat == p.messageType
            && Quad(f[8], f[9], f[10], f[11]) == p.streamId
            && Quad(f[12], f[13], f[14], f[15]) == n
            && f[16..16 + n] == p.payload
            && Quad(f[16 + n], f[17 + n], f[18 + n], f[19 + n]) == Crc(f[..16 + n])
  {
    hide Crc, Le, FromLe, Quad;
    var f, n := Frame(p), |p.payload|;
    HeaderFieldsOf(p);
    FrameParts(p, f);
    hide Frame, Header, Covered;
    TwoBytes(f, 4);
    TwoBytes(f, 6);
    FourBytes(f, 8);
    FourBytes(f, 12);
    FourBytes(f, 16 + n);
  }

  lemma HeaderFieldsOf(p: Packet)
    requires p.InRange() && |p.payload| < U32
    ensures var f := Frame(p);
            && f[..4] == MAGIC && Get(f, 4, 2) == p.version && Get(f, 6, 2) == p.messageType
            && Get(f, 8, 4) == p.streamId && Get(f, 12, 4) == |p.payload|
  {
    hide Crc, Le, FromLe;
    var f := Frame(p);
    assert f[..HEADER] == Header(p);
    FieldRoundTrip(p.version, 2, U16);
    FieldRoundTrip(p.messageType, 2, U16);
    FieldRoundTrip(p.streamId, 4, U32);
    FieldRoundTrip(|p.payload|, 4, U32);
    var h := Header(p);
    assert h[..4] == MAGIC && h[4..6] == Le(p.version, 2) && h[6..8] == Le(p.messageType, 2);
    assert h[8..12] == Le(p.streamId, 4) && h[12..16] == Le(|p.payload|, 4);
    assert f[..4] == h[..4] && f[4..6] == h[4..6] && f[6..8] == h[6..8];
    assert f[8..12] == h[8..12] && f[12..16] == h[12..16];
  }

  /** A buffer with good magic, length and checksum is the encoding of its own fields. */
  lemma RebuiltFrame(b: seq<byte>, n: nat)
    requires OVERHEAD + n <= |b| && b[..4] == MAGIC && Get(b, 12, 4) == n
    requires Crc(b[..HEADER + n]) == Get(b, HEADER + n, 4)
    ensures Frame(Fields(b, n)) == b[..OVERHEAD + n] && Fields(b, n).InRange()
  {
    hide Crc, FromLe, Le;
    var p := Fields(b, n);
    LeOfFromLe(b[4..6]);
    LeOfFromLe(b[6..8]);
    LeOfFromLe(b[8..12]);
    LeOfFromLe(b[12..16]);
    LeOfFromLe(b[HEADER + n..HEADER + n + 4]);
    FitsWidths(p.version);
    FitsWidths(p.messageType);
    FitsWidths(p.streamId);
    assert Header(p) == b[..4] + b[4..6] + b[6..8] + b[8..12] + b[12..16];
    assert Header(p) == b[..HEADER];
    assert Covered(p) == b[..HEADER + n];
    assert Frame(p) == b[..HEADER + n] + b[HEADER + n..HEADER + n + 4];
  }

  // ----- The server's decoder

  /** The server accepts a buffer exactly when it starts with the encoding of a packet of the current version, a
      known type and a payload of at most 16 MiB; it then returns that packet and the length of its encoding. */
  lemma ServerExactly(b: seq<byte>, p: Packet, n: nat)
    ensures TnpChannel.Decode(b) == Ok((p, n)) <==>
            && p.InRange() && p.version == 1 && 1 <= p.messageType <= 16 && |p.payload| <= 16_777_216
            && n == |Frame(p)| && Frame(p) <= b
  {
    hide Frame, Crc, Get;
    if TnpChannel.Decode(b) == Ok((p, n)) {
      RebuiltFrame(b, n - OVERHEAD);
    }
    if p.InRange() && p.version == 1 && 1 <= p.messageType <= 16 && |p.payload| <= 16_777_216 && Frame(p) <= b {
      hide TnpChannel.Decode;
      TnpChannel.DecodeWhole(p, b);
    }
  }

  /** Why a buffer is refused, in the order of the checks. */
  lemma ServerRefusals(b: seq<byte>)
    ensures |b| < 20 ==> TnpChannel.Decode(b) == Err(TnpChannel.IncompletePacket)
    ensures |b| >= 20 && b[..4] != [84, 78, 80, 80] ==> TnpChannel.Decode(b) == Err(TnpChannel.InvalidMagic)
    ensures |b| >= 20 && b[..4] == [84, 78, 80, 80] ==>
              var version, kind, n := b[4] as nat + 256 * b[5] as nat, b[6] as nat + 256 * b[7] as nat,
                                      Quad(b[12], b[13], b[14], b[15]);
              && (version != 1 ==> TnpChannel.Decode(b) == Err(TnpChannel.UnsupportedVersion(version)))
              && (version == 1 && !(1 <= kind <= 16) ==>
                    TnpChannel.Decode(b) == Err(TnpChannel.UnknownMessageType(kind)))
              && (version == 1 && 1 <= kind <= 16 && n > 16_777_216 ==>
                    TnpChannel.Decode(b) == Err(TnpChannel.PacketTooLarge(n)))
              && (version == 1 && 1 <= kind <= 16 && n <= 16_777_216 && |b| < 20 + n ==>
                    TnpChannel.Decode(b) == Err(TnpChannel.IncompletePacket))
              && (version == 1 && 1 <= kind <= 16 && n <= 16_777_216 && |b| >= 20 + n
                  && Crc(b[..16 + n]) != Quad(b[16 + n], b[17 + n], b[18 + n], b[19 + n]) ==>
                    TnpChannel.Decode(b) == Err(TnpChannel.ChecksumMismatch))
  {
    hide Crc, Get, Quad;
    if |b| >= 20 {
      TwoBytes(b, 4);
      TwoBytes(b, 6);
      FourBytes(b, 12);
      var n := Get(b, 12, 4);
      if |b| >= 20 + n {
        FourBytes(b, 16 + n);
      }
    }
  }

  /** A frame damaged within four consecutive bytes, its length field and checksum intact. */
  ghost predicate Damaged(p: Packet, b: seq<byte>, i: nat) {
    var f, n := Frame(p), HEADER + |p.payload|;
    && |b| == |f| && b != f && DifferWithinFour(f[..n], b[..n], i) && b[12..16] == f[12..16] && b[n..] == f[n..]
  }

  lemma DamagedChecksum(p: Packet, b: seq<byte>, i: nat)
    requires p.InRange() && |p.payload| < U32 && Damaged(p, b, i)
    ensures var n := |p.payload|;
            Get(b, 12, 4) == n && Crc(b[..HEADER + n]) != Get(b, HEADER + n, 4)
  {
    hide Crc, Frame, FromLe;
    var f, n := Frame(p), HEADER + |p.payload|;
    HeaderFieldsOf(p);
    FrameParts(p, f);
    assert f == f[..n] + f[n..] && b == b[..n] + b[n..];
    BurstDetected(f[..n], b[..n], i);
    assert b[n..n + 4] == b[n..][..4] && f[n..n + 4] == f[n..][..4];
  }

  /** Damage within four consecutive bytes is never accepted, and damage to the payload is always reported as a
      wrong checksum, by the decoder and by `recv`. */
  lemma ServerRejectsDamage(p: Packet, b: seq<byte>, i: nat, rest: seq<byte>, script: seq<TnpChannel.Read>)
    requires TnpChannel.Sendable(p) && Damaged(p, b, i)
    ensures TnpChannel.Decode(b + rest).Err?
    ensures i >= HEADER ==> TnpChannel.Decode(b + rest) == Err(TnpChannel.ChecksumMismatch)
    ensures i >= HEADER ==> TnpChannel.Recv(b + rest, script).result == Err(TnpChannel.ChecksumMismatch)
  {
    hide Crc, Frame, Get, DifferWithinFour;
    var f, n := Frame(p), HEADER + |p.payload|;
    DamagedChecksum(p, b, i);
    SameGet(b, rest, 12);
    SameGet(b, rest, n);
    assert (b + rest)[..n] == b[..n];
    if i >= HEADER {
      SameHeader(p, b, i);
      SameGet2(b, rest, 4);
      SameGet2(b, rest, 6);
      HeaderFieldsOf(p);
      assert (b + rest)[..4] == b[..4];
    }
  }

  lemma SameGet(b: seq<byte>, rest: seq<byte>, at: nat)
    requires at + 4 <= |b|
    ensures Get(b + rest, at, 4) == Get(b, at, 4)
  {
    assert (b + rest)[at..at + 4] == b[at..at + 4];
  }

  lemma SameGet2(b: seq<byte>, rest: seq<byte>, at: nat)
    requires at + 2 <= |b|
    ensures Get(b + rest, at, 2) == Get(b, at, 2)
  {
    assert (b + rest)[at..at + 2] == b[at..at + 2];
  }

  lemma SameHeader(p: Packet, b: seq<byte>, i: nat)
    requires Damaged(p, b, i) && i >= HEADER
    ensures b[..4] == Frame(p)[..4] && Get(b, 4, 2) == Get(Frame(p), 4, 2) && Get(b, 6, 2) == Get(Frame(p), 6, 2)
  {
    hide Frame, FromLe;
    var f, n := Frame(p), HEADER + |p.payload|;
    assert forall j :: 0 <= j < HEADER ==> f[..n][j] == b[..n][j];
    assert b[..4] == f[..4] && b[4..6] == f[4..6] && b[6..8] == f[6..8];
  }

  // ----- The client's decoder

  /** The client accepts exactly the encodings of packets of the current version, whatever their type. */
  lemma ClientExactly(b: seq<byte>, p: Packet, n: nat)
    ensures TnpClient.Decode(b) == Ok((p, n)) <==>
            && p.InRange() && p.version == 1 && |p.payload| <= 16_777_216 && n == |Frame(p)| && Frame(p) <= b
  {
    hide Frame, Crc, Get;
    if TnpClient.Decode(b) == Ok((p, n)) {
      RebuiltFrame(b, n - OVERHEAD);
    }
    if p.InRange() && p.version == 1 && |p.payload| <= 16_777_216 && Frame(p) <= b {
      hide TnpClient.Decode;
      assert b == Frame(p) + b[|Frame(p)|..];
      TnpClient.RoundTrip(p, b[|Frame(p)|..]);
    }
  }

  // ----- What `recv` reports when reading goes wrong

  /** With nothing complete in the buffer: a timeout, a failed read, or the end of the stream, which is a read of
      nothing as well as no read at all. What was buffered stays. */
  lemma RecvReports(buf: seq<byte>, script: seq<TnpChannel.Read>)
    requires buf == [] || TnpChannel.Decode(buf) == Err(TnpChannel.IncompletePacket)
    ensures script == [] ==>
              TnpChannel.Recv(buf, script) == TnpChannel.Received(Err(TnpChannel.ConnectionClosed), buf, [])
    ensures script != [] && script[0] == TnpChannel.Timeout ==>
              TnpChannel.Recv(buf, script) == TnpChannel.Received(Err(TnpChannel.TimedOut), buf, script[1..])
    ensures script != [] && script[0] == TnpChannel.Failure ==>
              TnpChannel.Recv(buf, script) == TnpChannel.Received(Err(TnpChannel.IoError), buf, script[1..])
    ensures script != [] && script[0] == TnpChannel.Chunk([]) ==>
              TnpChannel.Recv(buf, script) == TnpChannel.Received(Err(TnpChannel.ConnectionClosed), buf, script[1..])
  {
    hide TnpChannel.Decode;
  }
}
