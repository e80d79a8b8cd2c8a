/** The server's packet decoder and the channel that reassembles packets from partial reads. */
module TnpChannel {
  import opened Core
  import opened Bytes
  import opened Crc32
  import opened TnpFrame

  datatype TnpError =
    | InvalidMagic
    | UnsupportedVersion(actual: nat)
    | ChecksumMismatch
    | PacketTooLarge(size: nat)
    | IncompletePacket
    | UnknownMessageType(code: nat)
    | IoError
    | TimedOut
    | ConnectionClosed

  /** The sixteen message types have codes 1 to 16. */
  predicate KnownType(code: nat) {
    0x0001 <= code <= 0x0010
  }

  /** A packet the server can have built: current version, known type, bounded payload. */
  predicate Sendable(p: Packet) {
    p.InRange() && p.version == VERSION && KnownType(p.messageType) && |p.payload| <= MAX_PAYLOAD
  }

  function Decode(b: seq<byte>): (r: Result<(Packet, nat), TnpError>)
    ensures r.Ok? ==> OVERHEAD <= r.value.1 <= |b|
  {
    if |b| < OVERHEAD then Err(IncompletePacket)
    else if b[..4] != MAGIC then Err(InvalidMagic)
    else if Get(b, 4, 2) != VERSION then Err(UnsupportedVersion(Get(b, 4, 2)))
    else if !KnownType(Get(b, 6, 2)) then Err(UnknownMessageType(Get(b, 6, 2)))
    else if Get(b, 12, 4) > MAX_PAYLOAD then Err(PacketTooLarge(Get(b, 12, 4)))
    else DecodeBody(b, Get(b, 12, 4))
  }

  /** With `n` payload bytes announced. */
  function DecodeBody(b: seq<byte>, n: nat): (r: Result<(Packet, nat), TnpError>)
    requires OVERHEAD <= |b|
    ensures r.Ok? ==> OVERHEAD <= r.value.1 <= |b|
  {
    var total := HEADER + n + 4;
    if |b| < total then Err(IncompletePacket)
    else if Crc(b[..total - 4]) != Get(b, total - 4, 4) then Err(ChecksumMismatch)
    else Ok((Packet(Get(b, 4, 2), Get(b, 6, 2), Get(b, 8, 4), b[HEADER..HEADER + n]), total))
  }

  lemma DecodeWhole(p: Packet, b: seq<byte>)
    requires Sendable(p) && Frame(p) <= b
    ensures Decode(b) == Ok((p, |Frame(p)|))
  {
    hide Frame, Header, Covered, Get, Crc;
    FrameParts(p, b);
    HeaderFields(p, b);
  }

  /** Until the last byte has arrived the decoder asks for more and reports nothing else. */
  lemma DecodePart(p: Packet, b: seq<byte>)
    requires Sendable(p) && b <= Frame(p) && b != Frame(p)
    ensures Decode(b) == Err(IncompletePacket)
  {
    if |b| >= OVERHEAD {
      assert Header(p) <= b by {
        assert Frame(p)[..HEADER] == Header(p);
        assert b[..HEADER] == Frame(p)[..HEADER];
      }
      HeaderFields(p, b);
    }
  }

  /** What one call of the reader yields. */
  datatype Read = Chunk(bytes: seq<byte>) | Timeout | Failure

  /** The bytes still to come. */
  function Incoming(script: seq<Read>): seq<byte> {
    if script == [] then []
    else (if script[0].Chunk? then script[0].bytes else []) + Incoming(script[1..])
  }

  datatype Received = Received(result: Result<Packet, TnpError>, buf: seq<byte>, script: seq<Read>)

  /** One `recv`: what it returns, what stays buffered, and which reads are left.
      A read of nothing, or no further read, is the end of the stream. */
  function Recv(buf: seq<byte>, script: seq<Read>): (r: Received)
    ensures |r.script| <= |script|
    ensures r.result.Ok? ==> |r.buf| + |Incoming(r.script)| < |buf| + |Incoming(script)|
    ensures r.result == Err(TimedOut) ==>
              |r.script| < |script| && |r.buf| + |Incoming(r.script)| <= |buf| + |Incoming(script)|
    decreases |script|
  {
    var d := Decode(buf);
    if buf != [] && d.Ok? then Received(Ok(d.value.0), buf[d.value.1..], script)
    else if buf != [] && d.error != IncompletePacket then Received(Err(d.error), buf, script)
    else if script == [] then Received(Err(ConnectionClosed), buf, script)
    else
      match script[0]
      case Timeout => Received(Err(TimedOut), buf, script[1..])
      case Failure => Received(Err(IoError), buf, script[1..])
      case Chunk(bytes) =>
        if bytes == [] then Received(Err(ConnectionClosed), buf, script[1..])
        else Recv(buf + bytes, script[1..])
  }

  class Channel {
    var readBuf: seq<byte>
    var script: seq<Read>

    constructor (script: seq<Read>)
      ensures this.readBuf == [] && this.script == script
    {
      this.readBuf, this.script := [], script;
    }

    /** Decodes from the buffer, reading more while the packet is incomplete. */
    method Receive() returns (r: Result<Packet, TnpError>)
      modifies this
      ensures Received(r, readBuf, script) == Recv(old(readBuf), old(script))
    {
      while true
        invariant Recv(readBuf, script) == Recv(old(readBuf), old(script))
        decreases |script|
      {
        if readBuf != [] {
          var d := Decode(readBuf);
          if d.Ok? {
            readBuf := readBuf[d.value.1..];
            return Ok(d.value.0);
          }
          if d.error != IncompletePacket {
            return Err(d.error);
          }
        }
        if script == [] {
          return Err(ConnectionClosed);
        }
        var read := script[0];
        script := script[1..];
        match read {
          case Timeout => return Err(TimedOut);
          case Failure => return Err(IoError);
          case Chunk(bytes) =>
            if bytes == [] {
              return Err(ConnectionClosed);
            }
            readBuf := readBuf + bytes;
        }
      }
    }
  }

  /** The packets a caller gets by receiving until something other than a timeout goes wrong. */
  function ReceiveAll(buf: seq<byte>, script: seq<Read>): seq<Packet>
    decreases |buf| + |Incoming(script)|, |script|
  {
    var r := Recv(buf, script);
    match r.result
    case Ok(p) => [p] + ReceiveAll(r.buf, r.script)
    case Err(TimedOut) => ReceiveAll(r.buf, r.script)
    case Err(_) => []
  }

  function Stream(packets: seq<Packet>): seq<byte> {
    if packets == [] then [] else Frame(packets[0]) + Stream(packets[1..])
  }

  /** The reader delivers data in non-empty pieces, with timeouts anywhere. */
  predicate Healthy(script: seq<Read>) {
    forall i :: 0 <= i < |script| ==> script[i].Timeout? || (script[i].Chunk? && script[i].bytes != [])
  }

  /** What one `recv` does while a healthy reader still delivers `p` and `rest`. */
  lemma {:induction false} RecvOne(buf: seq<byte>, script: seq<Read>, p: Packet, rest: seq<byte>)
    requires Sendable(p) && Healthy(script) && buf + Incoming(script) == Frame(p) + rest
    ensures var r := Recv(buf, script);
            && Healthy(r.script)
            && (r.result == Ok(p) || r.result == Err(TimedOut))
            && r.buf + Incoming(r.script) == if r.result.Ok? then rest else Frame(p) + rest
    decreases |script|
  {
    hide Decode, Frame, Sendable;
    var all := buf + Incoming(script);
    assert all[..|buf|] == buf;
    if |buf| >= |Frame(p)| {
      assert buf[..|Frame(p)|] == Frame(p);
      DecodeWhole(p, buf);
      assert buf == Frame(p) + buf[|Frame(p)|..];
      assert rest == all[|Frame(p)|..] == buf[|Frame(p)|..] + Incoming(script);
    } else {
      assert buf == Frame(p)[..|buf|];
      DecodePart(p, buf);
      if script[0].Chunk? {
        assert (buf + script[0].bytes) + Incoming(script[1..]) == all;
        RecvOne(buf + script[0].bytes, script[1..], p, rest);
      }
    }
  }

  /** With nothing left to deliver, `recv` reports timeouts and then the end. */
  lemma RecvNone(script: seq<Read>)
    requires Healthy(script) && Incoming(script) == []
    ensures var r := Recv([], script);
            && (r.result == Err(ConnectionClosed) || r.result == Err(TimedOut))
            && r.buf == [] && Healthy(r.script) && Incoming(r.script) == []
  {
  }

  /** However the encodings of some packets are cut into reads, with timeouts anywhere,
      receiving repeatedly returns exactly those packets in order. */
  lemma {:induction false} ReassemblyExact(buf: seq<byte>, script: seq<Read>, packets: seq<Packet>)
    requires forall i :: 0 <= i < |packets| ==> Sendable(packets[i])
    requires Healthy(script) && buf + Incoming(script) == Stream(packets)
    ensures ReceiveAll(buf, script) == packets
    decreases |buf| + |Incoming(script)|, |script|
  {
    hide Recv, Frame, Sendable, Healthy;
    var r := Recv(buf, script);
    if packets == [] {
      assert buf == [] && Incoming(script) == [];
      RecvNone(script);
      if r.result == Err(TimedOut) {
        ReassemblyExact(r.buf, r.script, packets);
      }
    } else {
      RecvOne(buf, script, packets[0], Stream(packets[1..]));
      ReassemblyExact(r.buf, r.script, if r.result.Ok? then packets[1..] else packets);
    }
  }
}
