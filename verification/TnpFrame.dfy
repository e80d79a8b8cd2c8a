/** The TNP packet layout shared by server and clients:
    magic, version, message type, stream id, payload length, payload, CRC-32 of all that. */
module TnpFrame {
  import opened Core
  import opened Bytes
  import opened Crc32

  const MAGIC: seq<byte> := [84, 78, 80, 80] // "TNPP"
  const VERSION := 1
  const MAX_PAYLOAD := 16 * 1024 * 1024
  const HEADER := 16
  const OVERHEAD := 20

  datatype Packet = Packet(version: nat, messageType: nat, streamId: nat, payload: seq<byte>) {
    predicate InRange() {
      version < U16 && messageType < U16 && streamId < U32
    }
  }

  function Header(p: Packet): (r: seq<byte>)
    ensures |r| == HEADER
  {
    MAGIC + Le(p.version, 2) + Le(p.messageType, 2) + Le(p.streamId, 4) + Le(|p.payload|, 4)
  }

  /** What the checksum covers. */
  function Covered(p: Packet): (r: seq<byte>)
    ensures |r| == HEADER + |p.payload|
  {
    Header(p) + p.payload
  }

  function Frame(p: Packet): (r: seq<byte>)
    ensures |r| == OVERHEAD + |p.payload|
  {
    Covered(p) + Le(Crc(Covered(p)), 4)
  }

  /** Reading the header fields back. */
  lemma HeaderFields(p: Packet, b: seq<byte>)
    requires p.InRange() && |p.payload| <= MAX_PAYLOAD
    requires Header(p) <= b
    ensures b[..4] == MAGIC
    ensures Get(b, 4, 2) == p.version && Get(b, 6, 2) == p.messageType
    ensures Get(b, 8, 4) == p.streamId && Get(b, 12, 4) == |p.payload|
  {
    var h := Header(p);
    assert forall i :: 0 <= i < HEADER ==> b[i] == h[i];
    assert b[..4] == MAGIC;
    assert b[4..6] == Le(p.version, 2);
    assert b[6..8] == Le(p.messageType, 2);
    assert b[8..12] == Le(p.streamId, 4);
    assert b[12..16] == Le(|p.payload|, 4);
    FieldRoundTrip(p.version, 2, U16);
    FieldRoundTrip(p.messageType, 2, U16);
    FieldRoundTrip(p.streamId, 4, U32);
    FieldRoundTrip(|p.payload|, 4, U32);
  }

  /** Reading payload and checksum back. */
  lemma FrameParts(p: Packet, b: seq<byte>)
    requires Frame(p) <= b
    ensures Header(p) <= b
    ensures b[HEADER..HEADER + |p.payload|] == p.payload
    ensures b[..HEADER + |p.payload|] == Covered(p)
    ensures Get(b, HEADER + |p.payload|, 4) == Crc(Covered(p))
  {
    var n := HEADER + |p.payload|;
    var f := Frame(p);
    assert forall i :: 0 <= i < |f| ==> b[i] == f[i];
    assert b[..n] == Covered(p);
    assert b[HEADER..n] == p.payload;
    assert b[n..n + 4] == Le(Crc(Covered(p)), 4);
    CrcIsWord(Covered(p));
    FieldRoundTrip(Crc(Covered(p)), 4, U32);
  }
}
