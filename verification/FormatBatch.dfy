/** Batches of records: the frame the write-ahead log appends and segments embed. */
module FormatBatch {
  import opened Core
  import opened Bytes
  import opened Crc32
  import opened FormatRecord
  import opened Slices

  const MAGIC: seq<byte> := [84, 78, 87, 66] // "TNWB"
  const VERSION := 1
  const HEADER := 24

  // ----- Record bodies in a row

  ghost predicate AllInRange(rs: seq<StoredEvent>) {
    forall i :: 0 <= i < |rs| ==> rs[i].InRange()
  }

  /** Total length of the bodies, or the first limit broken. */
  function BodyLength(rs: seq<StoredEvent>, lim: Limits): Result<nat, FormatError> {
    if rs == [] then Ok(0)
    else
      var before := BodyLength(rs[..|rs| - 1], lim);
      if before.Err? then before
      else
        var last := RecordLength(rs[|rs| - 1], lim);
        if last.Err? then last else Ok(before.value + last.value)
  }

  lemma {:induction false} WithinLimits(rs: seq<StoredEvent>, lim: Limits)
    requires BodyLength(rs, lim).Ok?
    ensures forall i :: 0 <= i < |rs| ==> RecordLength(rs[i], lim).Ok?
    ensures BodyLength(rs, lim).value >= FIXED * |rs|
  {
    hide RecordLength, TailSize;
    if rs != [] {
      WithinLimits(rs[..|rs| - 1], lim);
      AtLeastFixed(rs[|rs| - 1], lim);
    }
  }

  lemma AtLeastFixed(e: StoredEvent, lim: Limits)
    ensures RecordLength(e, lim).Ok? ==> RecordLength(e, lim).value >= FIXED
  {
  }

  ghost function Bodies(rs: seq<StoredEvent>, lim: Limits): (r: seq<byte>)
    requires AllInRange(rs) && BodyLength(rs, lim).Ok?
    ensures |r| == BodyLength(rs, lim).value
  {
    if rs == [] then []
    else Bodies(rs[..|rs| - 1], lim) + PutRecord(rs[|rs| - 1])
  }

  /** Reads `n` records from the front of `b`. */
  function ParseRecords(b: seq<byte>, n: nat, lim: Limits): (r: Result<(seq<StoredEvent>, seq<byte>), FormatError>)
    ensures r.Ok? ==> |r.value.0| == n
  {
    if n == 0 then Ok(([], b))
    else
      var before := ParseRecords(b, n - 1, lim);
      if before.Err? then before
      else
        var next := ParseRecord(before.value.1, lim);
        if next.Err? then Err(next.error) else Ok((before.value.0 + [next.value.0], next.value.1))
  }

  lemma {:induction false} ParseBodies(rs: seq<StoredEvent>, rest: seq<byte>, lim: Limits)
    requires AllInRange(rs) && BodyLength(rs, lim).Ok?
    ensures ParseRecords(Bodies(rs, lim) + rest, |rs|, lim) == Ok((rs, rest))
  {
    hide PutRecord, ParseRecord, TailSize, StoredEvent.InRange;
    if rs == [] {
      assert Bodies(rs, lim) + rest == rest;
    } else {
      var init, last := rs[..|rs| - 1], rs[|rs| - 1];
      assert AllInRange(init);
      ParseBodies(init, PutRecord(last) + rest, lim);
      ParsePutRecord(last, rest, lim);
      assert Bodies(rs, lim) + rest == Bodies(init, lim) + (PutRecord(last) + rest);
      assert init + [last] == rs;
    }
  }

  lemma {:induction false} BodiesOfParse(b: seq<byte>, n: nat, lim: Limits)
    requires ParseRecords(b, n, lim).Ok?
    ensures var (rs, rest) := ParseRecords(b, n, lim).value;
            AllInRange(rs) && BodyLength(rs, lim).Ok? && b == Bodies(rs, lim) + rest
  {
    hide PutRecord, ParseRecord, RecordLength, StoredEvent.InRange;
    if n > 0 {
      BodiesOfParse(b, n - 1, lim);
      var before := ParseRecords(b, n - 1, lim).value;
      PutParsedRecord(before.1, lim);
      var last := ParseRecord(before.1, lim).value.0;
      var rs := before.0 + [last];
      assert rs[..|rs| - 1] == before.0;
    }
  }

  lemma {:induction false} PrefixFine(rs: seq<StoredEvent>, n: nat, lim: Limits)
    requires n <= |rs| && AllInRange(rs) && BodyLength(rs, lim).Ok?
    ensures AllInRange(rs[..n]) && BodyLength(rs[..n], lim).Ok?
    ensures n > 0 ==> RecordLength(rs[n - 1], lim).Ok?
  {
    hide RecordLength, StoredEvent.InRange;
    if n < |rs| {
      var init := rs[..|rs| - 1];
      PrefixFine(init, n, lim);
      assert init[..n] == rs[..n];
    } else {
      assert rs[..n] == rs;
    }
  }

  /** The first broken limit is the one reported. */
  lemma {:induction false} FailureStays(rs: seq<StoredEvent>, n: nat, lim: Limits)
    requires n <= |rs| && BodyLength(rs[..n], lim).Err?
    ensures BodyLength(rs, lim) == BodyLength(rs[..n], lim)
  {
    hide RecordLength;
    if n < |rs| {
      var init := rs[..|rs| - 1];
      assert init[..n] == rs[..n];
      FailureStays(init, n, lim);
    } else {
      assert rs[..n] == rs;
    }
  }

  lemma {:induction false} ParseFailureStays(b: seq<byte>, m: nat, n: nat, lim: Limits)
    requires m <= n && ParseRecords(b, m, lim).Err?
    ensures ParseRecords(b, n, lim) == ParseRecords(b, m, lim)
  {
    hide ParseRecord;
    if m < n {
      ParseFailureStays(b, m, n - 1, lim);
    }
  }

  // ----- The batch header

  /** The twenty bytes under the header checksum. */
  function Prelude(length: nat, count: nat, body: seq<byte>): (r: seq<byte>)
    ensures |r| == 20
  {
    MAGIC + Le(VERSION, 2) + Le(0, 2) + Le(length, 4) + Le(count, 4) + Le(Crc(body), 4)
  }

  function Frame(count: nat, body: seq<byte>): (r: seq<byte>)
    ensures |r| == HEADER + |body|
  {
    var p := Prelude(HEADER + |body|, count, body);
    p + Le(Crc(p), 4) + body
  }

  /** The fields of the prelude, read back from any buffer that starts with it. */
  lemma PreludeFields(length: nat, count: nat, body: seq<byte>, b: seq<byte>)
    requires length < U32 && count < U32 && Prelude(length, count, body) <= b
    ensures b[..4] == MAGIC && Get(b, 4, 2) == VERSION && Get(b, 6, 2) == 0
    ensures Get(b, 8, 4) == length && Get(b, 12, 4) == count && Get(b, 16, 4) == Crc(body)
  {
    hide FromLe, Le, Crc;
    var p := Prelude(length, count, body);
    assert forall i :: 0 <= i < 20 ==> b[i] == p[i];
    assert b[..4] == MAGIC && b[4..6] == Le(VERSION, 2) && b[6..8] == Le(0, 2);
    assert b[8..12] == Le(length, 4) && b[12..16] == Le(count, 4) && b[16..20] == Le(Crc(body), 4);
    CrcIsWord(body);
    HalfRoundTrip(VERSION, []);
    HalfRoundTrip(0, []);
    WordRoundTrip(length, []);
    WordRoundTrip(count, []);
    WordRoundTrip(Crc(body), []);
  }

  /** A buffer with these fields starts with the prelude. */
  lemma FieldsArePrelude(length: nat, count: nat, body: seq<byte>, b: seq<byte>)
    requires |b| >= 20
    requires b[..4] == MAGIC && Get(b, 4, 2) == VERSION && Get(b, 6, 2) == 0
    requires Get(b, 8, 4) == length && Get(b, 12, 4) == count && Get(b, 16, 4) == Crc(body)
    ensures b[..20] == Prelude(length, count, body)
  {
    hide FromLe, Le, Crc;
    HalfRoundTrip(0, b[4..6]);
    HalfRoundTrip(0, b[6..8]);
    WordRoundTrip(0, b[8..12]);
    WordRoundTrip(0, b[12..16]);
    WordRoundTrip(0, b[16..20]);
    Cut(b, 4, 6);
    Cut(b, 6, 8);
    Cut(b, 8, 12);
    Cut(b, 12, 16);
    Cut(b, 16, 20);
  }

  // ----- Encoding and decoding a batch

  function EncodedBatch(rs: seq<StoredEvent>, lim: Limits): Result<nat, FormatError> {
    if |rs| > lim.maxRecords then Err(LimitExceeded(RecordsPerBatch))
    else
      var n := BodyLength(rs, lim);
      if n.Err? then n
      else if HEADER + n.value > lim.maxFrame || HEADER + n.value >= U32 then Err(LimitExceeded(FrameBytes))
      else n
  }

  /** The bytes of a batch, or the limit that refuses it. */
  ghost function EncodeBatch(rs: seq<StoredEvent>, lim: Limits): (r: Result<seq<byte>, FormatError>)
    requires AllInRange(rs)
  {
    var n := EncodedBatch(rs, lim);
    if n.Err? then Err(n.error) else Ok(Frame(|rs|, Bodies(rs, lim)))
  }

  /** The frame length a prefix announces, once its header is there and sound. */
  function FrameLength(b: seq<byte>, lim: Limits): (r: Result<nat, FormatError>)
    ensures r.Ok? ==> HEADER <= |b| && HEADER <= r.value
  {
    if |b| < HEADER then Err(Incomplete(HEADER, |b|))
    else if b[..4] != MAGIC then Err(InvalidMagic)
    else if Get(b, 4, 2) != VERSION then Err(UnsupportedVersion(Get(b, 4, 2)))
    else if Get(b, 6, 2) != 0 then Err(InvalidData)
    else if Get(b, 20, 4) != Crc(b[..20]) then Err(ChecksumMismatch)
    else if Get(b, 8, 4) < HEADER then Err(InvalidData)
    else if Get(b, 8, 4) > lim.maxFrame then Err(LimitExceeded(FrameBytes))
    else if Get(b, 12, 4) > lim.maxRecords then Err(LimitExceeded(RecordsPerBatch))
    else Ok(Get(b, 8, 4))
  }

  function DecodeBatch(b: seq<byte>, lim: Limits): Result<seq<StoredEvent>, FormatError> {
    var length := FrameLength(b, lim);
    if length.Err? then Err(length.error)
    else if |b| < length.value then Err(Incomplete(length.value, |b|))
    else if |b| > length.value then Err(InvalidData)
    else if Get(b, 16, 4) != Crc(b[HEADER..]) then Err(ChecksumMismatch)
    else
      var r := ParseRecords(b[HEADER..], Get(b, 12, 4), lim);
      if r.Err? then Err(r.error) else if r.value.1 != [] then Err(InvalidData) else Ok(r.value.0)
  }

  /** The header of an encoded batch, as any long enough prefix of it shows. */
  lemma EncodedHeader(rs: seq<StoredEvent>, lim: Limits, b: seq<byte>)
    requires AllInRange(rs) && EncodeBatch(rs, lim).Ok? && b <= EncodeBatch(rs, lim).value && |b| >= HEADER
    ensures FrameLength(b, lim) == Ok(|EncodeBatch(rs, lim).value|)
    ensures Get(b, 12, 4) == |rs| && Get(b, 16, 4) == Crc(Bodies(rs, lim))
  {
    hide Get, Le, Bodies, BodyLength, Prelude, Crc;
    var body := Bodies(rs, lim);
    var f := Frame(|rs|, body);
    var p := Prelude(|f|, |rs|, body);
    assert forall i :: 0 <= i < |b| ==> b[i] == f[i];
    assert b[..20] == p;
    assert b[20..24] == Le(Crc(p), 4);
    WithinLimits(rs, lim);
    PreludeFields(|f|, |rs|, body, b);
    CrcIsWord(p);
    WordRoundTrip(Crc(p), []);
    GetIs(b, 20, p);
  }

  lemma GetIs(b: seq<byte>, at: nat, p: seq<byte>)
    requires at + 4 <= |b| && b[at..at + 4] == Le(Crc(p), 4)
    ensures Get(b, at, 4) == Crc(p)
  {
    CrcIsWord(p);
    WordRoundTrip(Crc(p), []);
  }

  /** An encoded batch decodes to its records. */
  lemma DecodeEncoded(rs: seq<StoredEvent>, lim: Limits)
    requires AllInRange(rs) && EncodeBatch(rs, lim).Ok?
    ensures DecodeBatch(EncodeBatch(rs, lim).value, lim) == Ok(rs)
  {
    hide Get, FrameLength, Prelude, ParseRecords, Bodies;
    var b := EncodeBatch(rs, lim).value;
    EncodedHeader(rs, lim, b);
    assert b[HEADER..] == Bodies(rs, lim);
    ParseBodies(rs, [], lim);
    assert Bodies(rs, lim) + [] == Bodies(rs, lim);
  }

  /** A buffer with a sound header and body checksum is the frame around its body. */
  lemma SoundIsFrame(b: seq<byte>, lim: Limits)
    requires FrameLength(b, lim) == Ok(|b|) && Get(b, 16, 4) == Crc(b[HEADER..])
    ensures b == Frame(Get(b, 12, 4), b[HEADER..]) && |b| < U32
  {
    hide Le, Get, Prelude, Crc;
    FieldsArePrelude(|b|, Get(b, 12, 4), b[HEADER..], b);
    LastWord(b, 20);
    LastWord(b, 8);
    assert b == b[..20] + b[20..24] + b[HEADER..];
  }

  lemma LastWord(b: seq<byte>, at: nat)
    requires at + 4 <= |b|
    ensures b[at..at + 4] == Le(Get(b, at, 4), 4) && Get(b, at, 4) < U32
  {
    WordRoundTrip(0, b[at..at + 4]);
  }

  /** Nothing else decodes: an accepted buffer is the one encoding of its records under the same limits. */
  lemma EncodeDecoded(b: seq<byte>, lim: Limits)
    requires DecodeBatch(b, lim).Ok?
    ensures AllInRange(DecodeBatch(b, lim).value)
    ensures EncodeBatch(DecodeBatch(b, lim).value, lim) == Ok(b)
  {
    hide Get, Frame, ParseRecords, Bodies, BodyLength;
    var body, count := b[HEADER..], Get(b, 12, 4);
    BodiesOfParse(body, count, lim);
    var rs := DecodeBatch(b, lim).value;
    assert body == Bodies(rs, lim) + [] == Bodies(rs, lim);
    SoundIsFrame(b, lim);
  }

  /** Every proper prefix of an encoding asks for more, and says how much. */
  lemma PrefixIncomplete(rs: seq<StoredEvent>, lim: Limits, b: seq<byte>)
    requires AllInRange(rs) && EncodeBatch(rs, lim).Ok?
    requires b <= EncodeBatch(rs, lim).value && b != EncodeBatch(rs, lim).value
    ensures DecodeBatch(b, lim)
         == Err(Incomplete(if |b| < HEADER then HEADER else |EncodeBatch(rs, lim).value|, |b|))
  {
    hide Get, Prelude, Bodies, BodyLength;
    if |b| >= HEADER {
      EncodedHeader(rs, lim, b);
    }
  }
}
