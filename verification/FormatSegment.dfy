/** Segment files: a header, one embedded batch and a footer. */
module FormatSegment {
  import opened Core
  import opened Bytes
  import opened Crc32
  import opened FormatRecord
  import opened Slices
  import Batch = FormatBatch

  const MAGIC: seq<byte> := [84, 78, 83, 70] // "TNSF"
  const FOOTER_MAGIC: seq<byte> := [84, 78, 70, 84] // "TNFT"
  const VERSION := 1
  const HEADER := 52
  const FOOTER := 16

  datatype WalHeader = WalHeader(database: seq<byte>, source: int, epoch: int) {
    ghost predicate InRange() {
      |database| == 16 && 0 <= source < U32 && 0 <= epoch < U64
    }
  }

  datatype Segment = Segment(header: WalHeader, records: seq<StoredEvent>)

  /** Every record belongs to the segment's source and epoch. */
  predicate SameSource(h: WalHeader, rs: seq<StoredEvent>) {
    forall i :: 0 <= i < |rs| ==> rs[i].id.source == h.source && rs[i].id.epoch == h.epoch
  }

  // ----- Layout

  function PutLong(x: int): (r: seq<byte>)
    requires 0 <= x < U64
    ensures |r| == 8
  {
    Le(x, 8)
  }

  lemma LongRoundTrip(x: int, b: seq<byte>)
    ensures 0 <= x < U64 ==> FromLe(PutLong(x)) == x
    ensures |b| == 8 ==> FromLe(b) < U64 && PutLong(FromLe(b)) == b
  {
    if 0 <= x < U64 {
      FitsWidths(x);
      FromLeOfLe(x, 8);
    }
    FitsWidths(FromLe(b));
    LeOfFromLe(b);
  }

  /** The forty-eight bytes under the header checksum. */
  ghost function Prelude(h: WalHeader, count: nat, body: seq<byte>): (r: seq<byte>)
    requires h.InRange() && count < U32 && |body| < U32
    ensures |r| == 48
  {
    CrcIsWord(body);
    MAGIC + PutHalf(VERSION) + PutHalf(0) + h.database + PutWord(h.source) + PutLong(h.epoch)
    + PutWord(|body|) + PutWord(count) + PutWord(Crc(body))
  }

  /** The footer carries no directory, so it is always the same. */
  function FooterPrelude(): (r: seq<byte>)
    ensures |r| == 12
  {
    FOOTER_MAGIC + PutHalf(VERSION) + PutHalf(0) + PutWord(0)
  }

  function Footer(): (r: seq<byte>)
    ensures |r| == FOOTER
  {
    CrcIsWord(FooterPrelude());
    FooterPrelude() + PutWord(Crc(FooterPrelude()))
  }

  ghost function Frame(h: WalHeader, count: nat, body: seq<byte>): (r: seq<byte>)
    requires h.InRange() && count < U32 && |body| < U32
    ensures |r| == HEADER + |body| + FOOTER
  {
    var p := Prelude(h, count, body);
    CrcIsWord(p);
    p + PutWord(Crc(p)) + body + Footer()
  }

  /** The bytes of a segment, or why there are none. */
  ghost function EncodeSegment(h: WalHeader, rs: seq<StoredEvent>, lim: Limits): Result<seq<byte>, FormatError>
    requires h.InRange() && Batch.AllInRange(rs)
  {
    if !SameSource(h, rs) then Err(InvalidData)
    else
      var batch := Batch.EncodeBatch(rs, lim);
      if batch.Err? then batch
      else if HEADER + |batch.value| + FOOTER > lim.maxSegment then Err(LimitExceeded(SegmentBytes))
      else
        Batch.WithinLimits(rs, lim);
        Ok(Frame(h, |rs|, batch.value))
  }

  // ----- Decoding

  /** What the header announces: the embedded batch's length. */
  function BodyLength(b: seq<byte>, lim: Limits): (r: Result<nat, FormatError>)
    ensures r.Ok? ==> |b| >= HEADER
  {
    if |b| < HEADER then Err(Incomplete(HEADER, |b|))
    else if b[..4] != MAGIC then Err(InvalidMagic)
    else if Get(b, 4, 2) != VERSION then Err(UnsupportedVersion(Get(b, 4, 2)))
    else if Get(b, 6, 2) != 0 then Err(InvalidData)
    else if Get(b, 48, 4) != Crc(b[..48]) then Err(ChecksumMismatch)
    else if HEADER + Get(b, 36, 4) + FOOTER > lim.maxSegment then Err(LimitExceeded(SegmentBytes))
    else Ok(Get(b, 36, 4))
  }

  function CheckFooter(f: seq<byte>): Option<FormatError>
    requires |f| == FOOTER
  {
    if f[..4] != FOOTER_MAGIC then Some(InvalidMagic)
    else if Get(f, 4, 2) != VERSION then Some(UnsupportedVersion(Get(f, 4, 2)))
    else if Get(f, 6, 2) != 0 || Get(f, 8, 4) != 0 then Some(InvalidData)
    else if Get(f, 12, 4) != Crc(f[..12]) then Some(ChecksumMismatch)
    else None
  }

  function TakeHeader(b: seq<byte>): WalHeader
    requires |b| >= HEADER
  {
    WalHeader(b[8..24], Get(b, 24, 4), Get(b, 28, 8))
  }

  function DecodeSegment(b: seq<byte>, lim: Limits): Result<Segment, FormatError> {
    var n := BodyLength(b, lim);
    if n.Err? then Err(n.error)
    else
      var total := HEADER + n.value + FOOTER;
      if |b| < total then Err(Incomplete(total, |b|))
      else if |b| > total then Err(InvalidData)
      else
        var footer := CheckFooter(b[HEADER + n.value..]);
        if footer.Some? then Err(footer.value)
        else DecodeBody(TakeHeader(b), Get(b, 40, 4), Get(b, 44, 4), b[HEADER..HEADER + n.value], lim)
  }

  /** The embedded batch must match the header's checksum, count, source and epoch. */
  function DecodeBody(h: WalHeader, count: nat, crc: nat, body: seq<byte>, lim: Limits): Result<Segment, FormatError> {
    if Crc(body) != crc then Err(ChecksumMismatch)
    else if |body| < Batch.HEADER then Err(InvalidData)
    else if count > lim.maxRecords then Err(LimitExceeded(RecordsPerBatch))
    else
      var records := Batch.DecodeBatch(body, lim);
      if records.Err? then Err(if records.error.Incomplete? then InvalidData else records.error)
      else if |records.value| != count || !SameSource(h, records.value) then Err(InvalidData)
      else Ok(Segment(h, records.value))
  }

  // ----- Fields of the layout

  lemma PreludeFields(h: WalHeader, count: nat, body: seq<byte>, b: seq<byte>)
    requires h.InRange() && count < U32 && |body| < U32 && |b| >= HEADER && b[..48] == Prelude(h, count, body)
    ensures b[..4] == MAGIC && Get(b, 4, 2) == VERSION && Get(b, 6, 2) == 0 && TakeHeader(b) == h
    ensures Get(b, 36, 4) == |body| && Get(b, 40, 4) == count && Get(b, 44, 4) == Crc(body)
  {
    hide FromLe, PutHalf, PutWord, PutLong;
    CrcIsWord(body);
    PreludeSlices(h, count, body, b);
    HalfRoundTrip(VERSION, []);
    HalfRoundTrip(0, []);
    WordRoundTrip(h.source, []);
    LongRoundTrip(h.epoch, []);
    WordRoundTrip(|body|, []);
    WordRoundTrip(count, []);
    WordRoundTrip(Crc(body), []);
  }

  lemma PreludeSlices(h: WalHeader, count: nat, body: seq<byte>, b: seq<byte>)
    requires h.InRange() && count < U32 && |body| < U32 && Crc(body) < U32
    requires |b| >= 48 && b[..48] == Prelude(h, count, body)
    ensures b[..4] == MAGIC && b[4..6] == PutHalf(VERSION) && b[6..8] == PutHalf(0) && b[8..24] == h.database
    ensures b[24..28] == PutWord(h.source) && b[28..36] == PutLong(h.epoch) && b[36..40] == PutWord(|body|)
    ensures b[40..44] == PutWord(count) && b[44..48] == PutWord(Crc(body))
  {
    hide PutHalf, PutWord, PutLong, Crc;
    var p := Prelude(h, count, body);
    assert forall i :: 0 <= i < 48 ==> b[i] == p[i];
    assert p[..4] == MAGIC && p[4..6] == PutHalf(VERSION) && p[6..8] == PutHalf(0) && p[8..24] == h.database;
    assert p[24..28] == PutWord(h.source) && p[28..36] == PutLong(h.epoch) && p[36..40] == PutWord(|body|);
    assert p[40..44] == PutWord(count) && p[44..48] == PutWord(Crc(body));
  }

  lemma FieldsArePrelude(b: seq<byte>, body: seq<byte>)
    requires |b| >= HEADER && b[..4] == MAGIC && Get(b, 4, 2) == VERSION && Get(b, 6, 2) == 0
    requires Get(b, 36, 4) == |body| && Get(b, 44, 4) == Crc(body)
    ensures TakeHeader(b).InRange() && Get(b, 40, 4) < U32 && |body| < U32
    ensures b[..48] == Prelude(TakeHeader(b), Get(b, 40, 4), body)
  {
    hide FromLe, PutHalf, PutWord, PutLong, Crc;
    HalfRoundTrip(0, b[4..6]);
    HalfRoundTrip(0, b[6..8]);
    WordRoundTrip(0, b[24..28]);
    LongRoundTrip(0, b[28..36]);
    WordRoundTrip(0, b[36..40]);
    WordRoundTrip(0, b[40..44]);
    WordRoundTrip(0, b[44..48]);
    Cut(b, 4, 6);
    Cut(b, 6, 8);
    Cut(b, 8, 24);
    Cut(b, 24, 28);
    Cut(b, 28, 36);
    Cut(b, 36, 40);
    Cut(b, 40, 44);
    Cut(b, 44, 48);
  }

  lemma FooterAccepted()
    ensures CheckFooter(Footer()).None?
  {
    hide FromLe, PutHalf, PutWord, Crc;
    var p, g := FooterPrelude(), Footer();
    CrcIsWord(p);
    assert g[..12] == p && g[12..16] == PutWord(Crc(p));
    assert g[..4] == FOOTER_MAGIC && g[4..6] == PutHalf(VERSION) && g[6..8] == PutHalf(0) && g[8..12] == PutWord(0);
    WordRoundTrip(Crc(p), []);
    HalfRoundTrip(VERSION, []);
    HalfRoundTrip(0, []);
    WordRoundTrip(0, []);
  }

  lemma OnlyFooterAccepted(f: seq<byte>)
    requires |f| == FOOTER && CheckFooter(f).None?
    ensures f == Footer()
  {
    hide FromLe, PutHalf, PutWord, Crc;
    HalfRoundTrip(0, f[4..6]);
    HalfRoundTrip(0, f[6..8]);
    WordRoundTrip(0, f[8..12]);
    WordRoundTrip(0, f[12..16]);
    assert f[..12] == f[..4] + f[4..6] + f[6..8] + f[8..12];
    assert f == f[..12] + f[12..16];
  }

  // ----- Round trips

  /** What any long enough prefix of an encoded segment shows. */
  lemma EncodedHeader(h: WalHeader, rs: seq<StoredEvent>, lim: Limits, b: seq<byte>)
    requires h.InRange() && Batch.AllInRange(rs) && EncodeSegment(h, rs, lim).Ok?
    requires b <= EncodeSegment(h, rs, lim).value && |b| >= HEADER
    ensures BodyLength(b, lim) == Ok(|Batch.EncodeBatch(rs, lim).value|)
    ensures TakeHeader(b) == h && Get(b, 40, 4) == |rs| && Get(b, 44, 4) == Crc(Batch.EncodeBatch(rs, lim).value)
  {
    hide Get, PutWord, Prelude, Frame, Batch.EncodeBatch, TakeHeader;
    var body := Batch.EncodeBatch(rs, lim).value;
    Small(rs, lim);
    FrameStart(h, |rs|, body, b);
    PreludeFields(h, |rs|, body, b);
  }

  lemma FrameStart(h: WalHeader, count: nat, body: seq<byte>, b: seq<byte>)
    requires h.InRange() && count < U32 && |body| < U32 && |b| >= HEADER && b <= Frame(h, count, body)
    ensures b[..48] == Prelude(h, count, body) && Get(b, 48, 4) == Crc(b[..48])
  {
    hide Get, Prelude, Footer;
    var p, f := Prelude(h, count, body), Frame(h, count, body);
    CrcIsWord(p);
    assert b[..48] == f[..48] == p;
    assert b[48..52] == f[48..52] == PutWord(Crc(p));
    Batch.GetIs(b, 48, p);
  }

  lemma Small(rs: seq<StoredEvent>, lim: Limits)
    requires Batch.AllInRange(rs) && Batch.EncodeBatch(rs, lim).Ok?
    ensures |rs| < U32 && |Batch.EncodeBatch(rs, lim).value| < U32 && |Batch.EncodeBatch(rs, lim).value| >= Batch.HEADER
    ensures |rs| <= lim.maxRecords
  {
    hide Batch.Bodies, Batch.Prelude;
    Batch.WithinLimits(rs, lim);
  }

  lemma FrameRest(h: WalHeader, count: nat, body: seq<byte>)
    requires h.InRange() && count < U32 && |body| < U32
    ensures var b := Frame(h, count, body);
            b[HEADER..HEADER + |body|] == body && b[HEADER + |body|..] == Footer()
  {
    hide Prelude, Footer, PutWord, Crc;
  }

  /** An encoded segment decodes to its header and records. */
  lemma DecodeEncoded(h: WalHeader, rs: seq<StoredEvent>, lim: Limits)
    requires h.InRange() && Batch.AllInRange(rs) && EncodeSegment(h, rs, lim).Ok?
    ensures DecodeSegment(EncodeSegment(h, rs, lim).value, lim) == Ok(Segment(h, rs))
  {
    hide Get, BodyLength, Prelude, TakeHeader, CheckFooter, Batch.EncodeBatch, Batch.DecodeBatch, Frame, Footer, Crc;
    var b := EncodeSegment(h, rs, lim).value;
    var body := Batch.EncodeBatch(rs, lim).value;
    EncodedHeader(h, rs, lim, b);
    Small(rs, lim);
    FrameRest(h, |rs|, body);
    FooterAccepted();
    Batch.DecodeEncoded(rs, lim);
  }

  /** Every proper prefix of an encoded segment asks for more. */
  lemma PrefixIncomplete(h: WalHeader, rs: seq<StoredEvent>, lim: Limits, b: seq<byte>)
    requires h.InRange() && Batch.AllInRange(rs) && EncodeSegment(h, rs, lim).Ok?
    requires b <= EncodeSegment(h, rs, lim).value && b != EncodeSegment(h, rs, lim).value
    ensures DecodeSegment(b, lim)
         == Err(Incomplete(if |b| < HEADER then HEADER else |EncodeSegment(h, rs, lim).value|, |b|))
  {
    hide Get, Prelude, TakeHeader, CheckFooter, Batch.EncodeBatch, DecodeBody, Crc, Frame, PutWord;
    if |b| >= HEADER {
      EncodedHeader(h, rs, lim, b);
      Small(rs, lim);
    }
  }

  /** Nothing else decodes. */
  lemma EncodeDecoded(b: seq<byte>, lim: Limits)
    requires DecodeSegment(b, lim).Ok?
    ensures var s := DecodeSegment(b, lim).value;
            s.header.InRange() && Batch.AllInRange(s.records) && EncodeSegment(s.header, s.records, lim) == Ok(b)
  {
    hide Get, Prelude, TakeHeader, CheckFooter, Batch.EncodeBatch, Batch.DecodeBatch, Footer;
    var n := BodyLength(b, lim).value;
    var body := b[HEADER..HEADER + n];
    Batch.EncodeDecoded(body, lim);
    FieldsArePrelude(b, body);
    OnlyFooterAccepted(b[HEADER + n..]);
    SoundIsFrame(b, body);
  }

  lemma SoundIsFrame(b: seq<byte>, body: seq<byte>)
    requires |b| == HEADER + |body| + FOOTER && |body| < U32 && b[HEADER..HEADER + |body|] == body
    requires TakeHeader(b).InRange() && Get(b, 40, 4) < U32
    requires b[..48] == Prelude(TakeHeader(b), Get(b, 40, 4), body) && Get(b, 48, 4) == Crc(b[..48])
    requires b[HEADER + |body|..] == Footer()
    ensures b == Frame(TakeHeader(b), Get(b, 40, 4), body)
  {
    hide Le, Get, Prelude, TakeHeader, Footer;
    Batch.LastWord(b, 48);
    assert b == b[..48] + b[48..52] + b[HEADER..HEADER + |body|] + b[HEADER + |body|..];
  }
}
