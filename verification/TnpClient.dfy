/** The TypeScript client's packet codec: fields written at offsets, read back with early exits. */
module TnpClient {
  import opened Core
  import opened Bytes
  import opened Crc32
  import opened TnpFrame

  datatype ProtocolError = TooShort | BadMagic | BadVersion | TooLarge | Incomplete | ChecksumMismatch | OutOfRange

  /** Writes `x` in `n` little-endian bytes at `offset`. */
  method WriteLe(buf: array<byte>, offset: nat, x: nat, n: nat)
    requires offset + n <= buf.Length
    modifies buf
    ensures buf[..] == old(buf[..offset]) + Le(x, n) + old(buf[offset + n..])
  {
    var rest := x;
    for k := 0 to n
      invariant rest >= 0
      invariant buf[..offset] == old(buf[..offset]) && buf[offset + n..] == old(buf[offset + n..])
      invariant buf[offset..offset + k] + Le(rest, n - k) == Le(x, n)
    {
      ghost var done := buf[offset..offset + k];
      assert Le(rest, n - k) == [(rest % 256) as byte] + Le(rest / 256, n - k - 1);
      buf[offset + k] := (rest % 256) as byte;
      assert buf[offset..offset + k + 1] == done + [(rest % 256) as byte];
      rest := rest / 256;
    }
    assert buf[..] == buf[..offset] + buf[offset..offset + n] + buf[offset + n..];
  }

  /** Copies `s` into the buffer at `offset`. */
  method CopyInto(buf: array<byte>, offset: nat, s: seq<byte>)
    requires offset + |s| <= buf.Length
    modifies buf
    ensures buf[..] == old(buf[..offset]) + s + old(buf[offset + |s|..])
  {
    for k := 0 to |s|
      invariant buf[..offset] == old(buf[..offset]) && buf[offset + |s|..] == old(buf[offset + |s|..])
      invariant buf[offset..offset + k] == s[..k]
    {
      buf[offset + k] := s[k];
    }
    assert buf[..] == buf[..offset] + buf[offset..offset + |s|] + buf[offset + |s|..];
  }

  method Encode(p: Packet, table: array<nat>) returns (r: Result<seq<byte>, ProtocolError>)
    requires table.Length == 256
    requires forall i :: 0 <= i < 256 ==> table[i] == Shifts(i, 8)
    ensures r == if |p.payload| > MAX_PAYLOAD then Err(TooLarge)
                 else if !p.InRange() then Err(OutOfRange)
                 else Ok(Frame(p))
  {
    if |p.payload| > MAX_PAYLOAD {
      return Err(TooLarge);
    }
    if !p.InRange() {
      return Err(OutOfRange);
    }
    var n := |p.payload|;
    var buf := new byte[OVERHEAD + n];
    CopyInto(buf, 0, MAGIC);
    assert buf[..4] == MAGIC;
    WriteLe(buf, 4, p.version, 2);
    assert buf[..6] == MAGIC + Le(p.version, 2);
    WriteLe(buf, 6, p.messageType, 2);
    assert buf[..8] == MAGIC + Le(p.version, 2) + Le(p.messageType, 2);
    WriteLe(buf, 8, p.streamId, 4);
    assert buf[..12] == MAGIC + Le(p.version, 2) + Le(p.messageType, 2) + Le(p.streamId, 4);
    WriteLe(buf, 12, n, 4);
    assert buf[..16] == Header(p);
    CopyInto(buf, 16, p.payload);
    assert buf[..16 + n] == Covered(p);
    var checksum := Checksum(table, buf[..HEADER + n]);
    WriteLe(buf, HEADER + n, checksum, 4);
    assert buf[..] == Frame(p);
    r := Ok(buf[..]);
  }

  /** Validates and reads one packet; also how many bytes it took. */
  function Decode(b: seq<byte>): Result<(Packet, nat), ProtocolError> {
    if |b| < OVERHEAD then Err(TooShort)
    else if b[..4] != MAGIC then Err(BadMagic)
    else if Get(b, 4, 2) != VERSION then Err(BadVersion)
    else
      var n := Get(b, 12, 4);
      if n > MAX_PAYLOAD then Err(TooLarge)
      else if |b| < OVERHEAD + n then Err(Incomplete)
      else if Crc(b[..HEADER + n]) != Get(b, HEADER + n, 4) then Err(ChecksumMismatch)
      else Ok((Packet(Get(b, 4, 2), Get(b, 6, 2), Get(b, 8, 4), b[HEADER..HEADER + n]), OVERHEAD + n))
  }

  /** A packet of the current version is read back from the front of any longer buffer. */
  lemma RoundTrip(p: Packet, rest: seq<byte>)
    requires p.InRange() && |p.payload| <= MAX_PAYLOAD && p.version == VERSION
    ensures Decode(Frame(p) + rest) == Ok((p, |Frame(p)|))
  {
    hide Frame, Header, Covered, Get, Crc;
    FrameParts(p, Frame(p) + rest);
    HeaderFields(p, Frame(p) + rest);
  }

  lemma BurstUnderHeader(h: seq<byte>, a: seq<byte>, b: seq<byte>, i: nat)
    requires DifferWithinFour(a, b, i) && a != b
    ensures Crc(h + a) != Crc(h + b)
  {
    assert (h + a)[|h|..] == a && (h + b)[|h|..] == b;
    forall j | 0 <= j < |h + a| && !(|h| + i <= j < |h| + i + 4)
      ensures (h + a)[j] == (h + b)[j]
    {
      if j >= |h| {
        assert (h + a)[j] == a[j - |h|] && (h + b)[j] == b[j - |h|];
      }
    }
    BurstDetected(h + a, h + b, |h| + i);
  }

  /** Reading a buffer with a good header, some payload of the stated length and a checksum. */
  lemma DecodeParts(p: Packet, body: seq<byte>, crc: nat, rest: seq<byte>)
    requires p.InRange() && |p.payload| == |body| <= MAX_PAYLOAD && p.version == VERSION && crc < U32
    ensures var r := Decode(Header(p) + body + Le(crc, 4) + rest);
            Crc(Header(p) + body) != crc ==> r == Err(ChecksumMismatch)
  {
    hide Crc, Le, FromLe, Header;
    var n := HEADER + |body|;
    var b := Header(p) + body + Le(crc, 4) + rest;
    assert b[..HEADER] == Header(p);
    HeaderFields(p, b);
    assert b[..n] == Header(p) + body;
    assert b[n..n + 4] == Le(crc, 4);
    FieldRoundTrip(crc, 4, U32);
  }

  /** Changing any payload bytes within a window of four is always noticed. */
  lemma PayloadBurstRejected(p: Packet, changed: seq<byte>, rest: seq<byte>, i: nat)
    requires p.InRange() && |p.payload| <= MAX_PAYLOAD && p.version == VERSION
    requires DifferWithinFour(p.payload, changed, i) && changed != p.payload
    ensures Decode(Header(p) + changed + Le(Crc(Covered(p)), 4) + rest) == Err(ChecksumMismatch)
  {
    CrcIsWord(Covered(p));
    BurstUnderHeader(Header(p), p.payload, changed, i);
    DecodeParts(p, changed, Crc(Covered(p)), rest);
  }
}
