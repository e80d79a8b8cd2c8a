/** The binary format by offsets: what stands where in records, batches and segments, and what fits in a batch. */
module FormatLayout {
  import opened Core
  import opened Bytes
  import opened Crc32
  import opened Fields
  import opened FormatRecord
  import opened Slices
  import Batch = FormatBatch
  import Segment = FormatSegment

  lemma GetWithin(b: seq<byte>, lo: nat, hi: nat, at: nat, n: nat)
    requires lo + at + n <= hi <= |b|
    ensures Get(b[lo..hi], at, n) == Get(b, lo + at, n)
  {
    SubSlice(b, lo, hi, at, at + n);
  }

  lemma WideRoundTrip(x: nat)
    requires x < U64
    ensures FromLe(Le(x, 8)) == x
  {
    FitsWidths(x);
    FromLeOfLe(x, 8);
  }

  /** An event's identity: source, epoch and sequence in 4, 8 and 8 bytes. */
  ghost predicate IdAt(b: seq<byte>, at: nat, id: EventId)
    requires at + 20 <= |b|
  {
    Get(b, at, 4) == id.source && Get(b, at + 4, 8) == id.epoch && Get(b, at + 12, 8) == id.sequence
  }

  ghost predicate EntityAt(b: seq<byte>, at: nat, e: EntityId)
    requires at + 12 <= |b|
  {
    Get(b, at, 4) == e.shard && Get(b, at + 4, 4) == e.slot && Get(b, at + 8, 4) == e.generation
  }

  ghost predicate TimeAt(b: seq<byte>, at: nat, t: Timestamp)
    requires at + 12 <= |b|
  {
    Get(b, at, 4) == t.clock && Get(b, at + 4, 8) == t.ticks
  }

  lemma IdBytes(id: EventId)
    requires id.InRange()
    ensures IdAt(PutId(id), 0, id)
  {
    hide Le, FromLe;
    var b := PutId(id);
    Three(4, 8, 8, id.source, id.epoch, id.sequence);
    assert b[0..4] == Le(id.source, 4) && b[4..12] == Le(id.epoch, 8) && b[12..20] == Le(id.sequence, 8);
    FieldRoundTrip(id.source, 4, U32);
    WideRoundTrip(id.epoch);
    WideRoundTrip(id.sequence);
  }

  lemma PutCons(w: nat, ws: seq<nat>, v: nat, vs: seq<nat>)
    requires |ws| == |vs|
    ensures Put([w] + ws, [v] + vs) == Le(v, w) + Put(ws, vs)
  {
    assert ([w] + ws)[1..] == ws && ([v] + vs)[1..] == vs;
  }

  lemma Two(b: nat, c: nat, y: nat, z: nat)
    ensures Put([b, c], [y, z]) == Le(y, b) + Le(z, c)
  {
    hide Le;
    assert Put([], []) == [];
    hide Put;
    PutCons(c, [], z, []);
    assert [c] + [] == [c] && [z] + [] == [z];
    PutCons(b, [c], y, [z]);
    assert [b] + [c] == [b, c] && [y] + [z] == [y, z];
  }

  lemma Three(a: nat, b: nat, c: nat, x: nat, y: nat, z: nat)
    ensures Put([a, b, c], [x, y, z]) == Le(x, a) + Le(y, b) + Le(z, c)
  {
    hide Le, Put;
    Two(b, c, y, z);
    PutCons(a, [b, c], x, [y, z]);
    assert [a] + [b, c] == [a, b, c] && [x] + [y, z] == [x, y, z];
    Regroup(Le(x, a), Le(y, b), Le(z, c));
  }

  lemma Regroup(a: seq<byte>, b: seq<byte>, c: seq<byte>)
    ensures a + (b + c) == a + b + c
  {
  }

  lemma EntityBytes(e: EntityId)
    requires e.InRange()
    ensures EntityAt(PutEntity(e), 0, e)
  {
    hide Le, FromLe;
    var b := PutEntity(e);
    Three(4, 4, 4, e.shard, e.slot, e.generation);
    assert b[0..4] == Le(e.shard, 4) && b[4..8] == Le(e.slot, 4) && b[8..12] == Le(e.generation, 4);
    FieldRoundTrip(e.shard, 4, U32);
    FieldRoundTrip(e.slot, 4, U32);
    FieldRoundTrip(e.generation, 4, U32);
  }

  lemma TimeBytes(t: Timestamp)
    requires t.InRange()
    ensures TimeAt(PutTime(t), 0, t)
  {
    hide Le, FromLe;
    var b := PutTime(t);
    Two(4, 8, t.clock, t.ticks);
    assert b[0..4] == Le(t.clock, 4) && b[4..12] == Le(t.ticks, 8);
    FieldRoundTrip(t.clock, 4, U32);
    WideRoundTrip(t.ticks);
  }

  lemma IdWithin(b: seq<byte>, at: nat, id: EventId)
    requires at + 20 <= |b| && id.InRange() && b[at..at + 20] == PutId(id)
    ensures IdAt(b, at, id)
  {
    hide PutId, Get;
    IdBytes(id);
    GetWithin(b, at, at + 20, 0, 4);
    GetWithin(b, at, at + 20, 4, 8);
    GetWithin(b, at, at + 20, 12, 8);
  }

  lemma EntityWithin(b: seq<byte>, at: nat, e: EntityId)
    requires at + 12 <= |b| && e.InRange() && b[at..at + 12] == PutEntity(e)
    ensures EntityAt(b, at, e)
  {
    hide PutEntity, Get;
    EntityBytes(e);
    GetWithin(b, at, at + 12, 0, 4);
    GetWithin(b, at, at + 12, 4, 4);
    GetWithin(b, at, at + 12, 8, 4);
  }

  lemma TimeWithin(b: seq<byte>, at: nat, t: Timestamp)
    requires at + 12 <= |b| && t.InRange() && b[at..at + 12] == PutTime(t)
    ensures TimeAt(b, at, t)
  {
    hide PutTime, Get;
    TimeBytes(t);
    GetWithin(b, at, at + 12, 0, 4);
    GetWithin(b, at, at + 12, 4, 8);
  }

  // ----- A record

  /** The fixed part of a record, field by field. */
  lemma HeadLayout(e: StoredEvent)
    requires e.InRange() && |e.causes| < U16 && |e.payload| < U32
    ensures var b := PutRecord(e);
            && |b| >= 68 && IdAt(b, 0, e.id) && EntityAt(b, 20, e.entity)
            && TimeAt(b, 32, e.times.valid) && TimeAt(b, 44, e.times.known)
            && Get(b, 56, 4) == e.schema && Get(b, 60, 2) == (if e.times.observed.Some? then 1 else 0)
            && Get(b, 62, 2) == |e.causes| && Get(b, 64, 4) == |e.payload|
  {
    hide PutId, PutEntity, PutTime, PutTail, Get, Split, PutWord, PutHalf;
    var b, h := PutRecord(e), HeadOf(e);
    HeadSplits(h);
    HeadParts(h, b);
    hide PutHead, PutRecord;
    IdWithin(b, 0, e.id);
    EntityWithin(b, 20, e.entity);
    TimeWithin(b, 32, e.times.valid);
    TimeWithin(b, 44, e.times.known);
  }

  lemma HeadParts(h: Head, b: seq<byte>)
    requires h.InRange() && |b| >= FIXED && b[..FIXED] == PutHead(h) && Split(PutHead(h), h)
    ensures b[0..20] == PutId(h.id) && b[20..32] == PutEntity(h.entity)
    ensures b[32..44] == PutTime(h.valid) && b[44..56] == PutTime(h.known)
    ensures Get(b, 56, 4) == h.schema && Get(b, 60, 2) == h.flags && Get(b, 62, 2) == h.causes
    ensures Get(b, 64, 4) == h.payload
  {
    hide PutId, PutEntity, PutTime, PutHead, FromLe;
    var p := b[..FIXED];
    assert b[0..20] == p[..20] && b[20..32] == p[20..32] && b[32..44] == p[32..44] && b[44..56] == p[44..56];
    assert b[56..60] == p[56..60] && b[60..62] == p[60..62] && b[62..64] == p[62..64] && b[64..68] == p[64..68];
    WordRoundTrip(h.schema, []);
    HalfRoundTrip(h.flags, []);
    HalfRoundTrip(h.causes, []);
    WordRoundTrip(h.payload, []);
  }

  lemma {:induction false} IdsAt(ids: seq<EventId>, i: nat)
    requires AllInRange(ids) && i < |ids|
    ensures 20 * i + 20 <= |PutIds(ids)| && PutIds(ids)[20 * i..20 * i + 20] == PutId(ids[i])
  {
    hide PutId;
    var b := PutIds(ids);
    if i == 0 {
      assert b[0..20] == PutId(ids[0]);
    } else {
      IdsAt(ids[1..], i - 1);
      assert b[20..] == PutIds(ids[1..]);
      assert b[20 * i..20 * i + 20] == b[20..][20 * i - 20..20 * i];
    }
  }

  /** The variable part: the observed time if there is one, the causes in order, the payload. */
  lemma TailLayout(e: StoredEvent, i: nat)
    requires e.InRange() && |e.causes| < U16 && |e.payload| < U32
    ensures var b := PutRecord(e); var from := if e.times.observed.Some? then 80 else 68;
            && |b| == from + 20 * |e.causes| + |e.payload|
            && (e.times.observed.Some? ==> TimeAt(b, 68, e.times.observed.value))
            && (i < |e.causes| ==> IdAt(b, from + 20 * i, e.causes[i]))
            && b[from + 20 * |e.causes|..] == e.payload
  {
    hide PutId, PutTime, PutHead, PutIds, Get;
    var b, tail := PutRecord(e), PutTail(e);
    var from := if e.times.observed.Some? then 80 else 68;
    var ids := PutIds(e.causes);
    assert b[68..] == tail;
    assert b[from..from + |ids|] == ids && b[from + |ids|..] == e.payload;
    if e.times.observed.Some? {
      assert b[68..80] == PutTime(e.times.observed.value);
      TimeWithin(b, 68, e.times.observed.value);
    }
    if i < |e.causes| {
      IdsAt(e.causes, i);
      SubSlice(b, from, from + |ids|, 20 * i, 20 * i + 20);
      IdWithin(b, from + 20 * i, e.causes[i]);
    }
  }

  // ----- A batch

  /** The layout of a batch: magic "TNWB", version, flags, whole length, number of records, the checksums of the
      records and of the twenty bytes before it, then the records one after another. */
  lemma BatchLayout(rs: seq<StoredEvent>, lim: Limits)
    requires Batch.AllInRange(rs) && Batch.EncodeBatch(rs, lim).Ok?
    ensures var b := Batch.EncodeBatch(rs, lim).value;
            && |b| >= 24 && b[..4] == [84, 78, 87, 66] && Get(b, 4, 2) == 1 && Get(b, 6, 2) == 0
            && Get(b, 8, 4) == |b| && Get(b, 12, 4) == |rs| && Get(b, 16, 4) == Crc(b[24..])
            && Get(b, 20, 4) == Crc(b[..20]) && Batch.BodyLength(rs, lim).Ok? && b[24..] == Batch.Bodies(rs, lim)
  {
    hide Crc, Get, Batch.Bodies, Batch.Prelude, Batch.BodyLength;
    var body := Batch.Bodies(rs, lim);
    Batch.WithinLimits(rs, lim);
    FrameFields(|rs|, body);
  }

  lemma FrameFields(count: nat, body: seq<byte>)
    requires count < U32 && 24 + |body| < U32
    ensures var b := Batch.Frame(count, body);
            && b[..4] == Batch.MAGIC && Get(b, 4, 2) == Batch.VERSION && Get(b, 6, 2) == 0
            && Get(b, 8, 4) == |b| && Get(b, 12, 4) == count && Get(b, 16, 4) == Crc(body)
            && Get(b, 20, 4) == Crc(b[..20]) && b[24..] == body
  {
    hide Crc, FromLe, Batch.Prelude, Le;
    var b, p := Batch.Frame(count, body), Batch.Prelude(24 + |body|, count, body);
    assert b[..20] == p && b[20..24] == Le(Crc(p), 4) && b[24..] == body;
    Batch.PreludeFields(24 + |body|, count, body, b);
    CrcIsWord(p);
    FieldRoundTrip(Crc(p), 4, U32);
  }

  /** The bodies of a batch are the records, one after another. */
  lemma BodiesSnoc(rs: seq<StoredEvent>, e: StoredEvent, lim: Limits)
    requires Batch.AllInRange(rs + [e]) && Batch.BodyLength(rs + [e], lim).Ok?
    ensures Batch.AllInRange(rs) && Batch.BodyLength(rs, lim).Ok? && RecordLength(e, lim).Ok?
    ensures Batch.Bodies(rs + [e], lim) == Batch.Bodies(rs, lim) + PutRecord(e)
  {
    hide RecordLength, PutRecord, StoredEvent.InRange;
    assert (rs + [e])[..|rs|] == rs;
    assert forall i :: 0 <= i < |rs| ==> rs[i] == (rs + [e])[i];
    Batch.WithinLimits(rs + [e], lim);
    assert (rs + [e])[|rs|] == e;
  }

  /** How many bytes a record takes. */
  function RecordSize(e: StoredEvent): nat {
    68 + (if e.times.observed.Some? then 12 else 0) + 20 * |e.causes| + |e.payload|
  }

  function TotalSize(rs: seq<StoredEvent>): nat {
    if rs == [] then 0 else TotalSize(rs[..|rs| - 1]) + RecordSize(rs[|rs| - 1])
  }

  /** A record within the limits, and within the widths of its length fields. */
  predicate Small(e: StoredEvent, lim: Limits) {
    |e.payload| <= lim.maxPayload && |e.payload| < U32 && |e.causes| <= lim.maxCauses && |e.causes| < U16
  }

  lemma {:induction false} BodyLengthExactly(rs: seq<StoredEvent>, lim: Limits)
    ensures var n := Batch.BodyLength(rs, lim);
            && (n.Ok? <==> forall i :: 0 <= i < |rs| ==> Small(rs[i], lim)) && (n.Ok? ==> n.value == TotalSize(rs))
  {
    if rs != [] {
      var init := rs[..|rs| - 1];
      BodyLengthExactly(init, lim);
      assert forall i :: 0 <= i < |init| ==> init[i] == rs[i];
      assert rs == init + [rs[|rs| - 1]];
    }
  }

  /** A batch is encoded exactly when it has no more records than allowed, each record is within the limits, and the
      whole fits the frame limit and a 32-bit length. */
  lemma EncodableExactly(rs: seq<StoredEvent>, lim: Limits)
    requires Batch.AllInRange(rs)
    ensures Batch.EncodeBatch(rs, lim).Ok? <==>
            && |rs| <= lim.maxRecords && (forall i :: 0 <= i < |rs| ==> Small(rs[i], lim))
            && 24 + TotalSize(rs) <= lim.maxFrame && 24 + TotalSize(rs) < U32
  {
    hide Batch.BodyLength, Batch.Bodies, Batch.Frame;
    BodyLengthExactly(rs, lim);
  }

  // ----- A segment

  /** The layout of a segment: magic "TNSF", version, flags, database, source, epoch, the batch's length, number of
      records and checksum, the checksum of the forty-eight bytes before it, the batch, and a footer "TNFT" with
      version, flags, an empty directory and its own checksum. */
  lemma SegmentLayout(h: Segment.WalHeader, rs: seq<StoredEvent>, lim: Limits)
    requires h.InRange() && Batch.AllInRange(rs) && Segment.EncodeSegment(h, rs, lim).Ok?
    ensures Batch.EncodeBatch(rs, lim).Ok?
    ensures var b, body := Segment.EncodeSegment(h, rs, lim).value, Batch.EncodeBatch(rs, lim).value;
            var foot := 52 + |body|;
            && |b| == foot + 16 && b[..4] == [84, 78, 83, 70] && Get(b, 4, 2) == 1 && Get(b, 6, 2) == 0
            && b[8..24] == h.database && Get(b, 24, 4) == h.source && Get(b, 28, 8) == h.epoch
            && Get(b, 36, 4) == |body| && Get(b, 40, 4) == |rs| && Get(b, 44, 4) == Crc(body)
            && Get(b, 48, 4) == Crc(b[..48]) && b[52..foot] == body
            && b[foot..foot + 4] == [84, 78, 70, 84] && Get(b, foot + 4, 2) == 1 && Get(b, foot + 6, 2) == 0
            && Get(b, foot + 8, 4) == 0 && Get(b, foot + 12, 4) == Crc(b[foot..foot + 12])
  {
    hide Crc, Get, Batch.EncodeBatch, Segment.Frame, Segment.Prelude, Segment.Footer;
    var body := Batch.EncodeBatch(rs, lim).value;
    BatchSmall(rs, lim);
    var b := Segment.Frame(h, |rs|, body);
    SegmentHead(h, |rs|, body);
    SegmentFoot(h, |rs|, body);
  }

  lemma BatchSmall(rs: seq<StoredEvent>, lim: Limits)
    requires Batch.AllInRange(rs) && Batch.EncodeBatch(rs, lim).Ok?
    ensures |rs| < U32 && |Batch.EncodeBatch(rs, lim).value| < U32
  {
    hide Batch.Bodies, Batch.BodyLength;
    Batch.WithinLimits(rs, lim);
  }

  lemma SegmentHead(h: Segment.WalHeader, count: nat, body: seq<byte>)
    requires h.InRange() && count < U32 && |body| < U32
    ensures var b := Segment.Frame(h, count, body);
            && b[..4] == Segment.MAGIC && Get(b, 4, 2) == Segment.VERSION && Get(b, 6, 2) == 0
            && b[8..24] == h.database && Get(b, 24, 4) == h.source && Get(b, 28, 8) == h.epoch
            && Get(b, 36, 4) == |body| && Get(b, 40, 4) == count && Get(b, 44, 4) == Crc(body)
            && Get(b, 48, 4) == Crc(b[..48]) && b[52..52 + |body|] == body && b[52 + |body|..] == Segment.Footer()
  {
    hide Crc, FromLe, Segment.Prelude, Segment.Footer, PutWord;
    var b, p := Segment.Frame(h, count, body), Segment.Prelude(h, count, body);
    CrcIsWord(p);
    assert b == p + PutWord(Crc(p)) + body + Segment.Footer();
    assert b[..48] == p && b[48..52] == PutWord(Crc(p)) && b[52..52 + |body|] == body;
    Segment.PreludeFields(h, count, body, b);
    assert Segment.TakeHeader(b) == h;
    WordRoundTrip(Crc(p), []);
  }

  lemma SegmentFoot(h: Segment.WalHeader, count: nat, body: seq<byte>)
    requires h.InRange() && count < U32 && |body| < U32
    requires Segment.Frame(h, count, body)[52 + |body|..] == Segment.Footer()
    ensures var b := Segment.Frame(h, count, body); var foot := 52 + |body|;
            && b[foot..foot + 4] == Segment.FOOTER_MAGIC && Get(b, foot + 4, 2) == 1 && Get(b, foot + 6, 2) == 0
            && Get(b, foot + 8, 4) == 0 && Get(b, foot + 12, 4) == Crc(b[foot..foot + 12])
  {
    hide Crc, FromLe, Segment.Frame;
    var b, f := Segment.Frame(h, count, body), Segment.Footer();
    var foot := 52 + |body|;
    FooterFields();
    assert b[foot..foot + 4] == f[..4] && b[foot + 4..foot + 6] == f[4..6] && b[foot + 6..foot + 8] == f[6..8];
    assert b[foot + 8..foot + 12] == f[8..12] && b[foot + 12..foot + 16] == f[12..16];
    assert b[foot..foot + 12] == f[..12];
  }

  lemma FooterFields()
    ensures var f := Segment.Footer();
            && f[..4] == Segment.FOOTER_MAGIC && FromLe(f[4..6]) == 1 && FromLe(f[6..8]) == 0
            && FromLe(f[8..12]) == 0 && FromLe(f[12..16]) == Crc(f[..12])
  {
    hide Crc, FromLe, PutHalf, PutWord;
    var f, p := Segment.Footer(), Segment.FooterPrelude();
    CrcIsWord(p);
    assert f[..12] == p && f[12..16] == PutWord(Crc(p));
    assert f[..4] == p[..4] && f[4..6] == PutHalf(1) && f[6..8] == PutHalf(0) && f[8..12] == PutWord(0);
    HalfRoundTrip(1, []);
    HalfRoundTrip(0, []);
    WordRoundTrip(0, []);
    WordRoundTrip(Crc(p), []);
  }
}
