/** Stored events as bytes: one record of the write-ahead log and of segments. */
module FormatRecord {
  import opened Core
  import opened Bytes
  import opened Fields

  datatype StoredEvent = StoredEvent(
    id: EventId, entity: EntityId, times: EventTimes, schema: int, payload: seq<byte>, causes: seq<EventId>)
  {
    /** Every field within the width the system's types give it. */
    ghost predicate InRange() {
      && id.InRange() && entity.InRange() && 0 <= schema < U32
      && times.valid.InRange() && times.known.InRange() && (times.observed.Some? ==> times.observed.value.InRange())
      && forall i :: 0 <= i < |causes| ==> causes[i].InRange()
    }
  }

  datatype Limits = Limits(maxFrame: nat, maxRecords: nat, maxPayload: nat, maxCauses: nat, maxSegment: nat)

  datatype Limit = FrameBytes | RecordsPerBatch | PayloadBytes | CausesPerEvent | SegmentBytes

  datatype FormatError =
    | Incomplete(needed: nat, available: nat)
    | InvalidMagic
    | UnsupportedVersion(version: nat)
    | ChecksumMismatch
    | LimitExceeded(limit: Limit)
    | InvalidData

  // ----- Identities and times

  lemma Sizes()
    ensures Size([4, 8, 8]) == 20 && Size([4, 4, 4]) == 12 && Size([4, 8]) == 12
  {
    assert Size([8]) == 8 && Size([4]) == 4;
    assert Size([8, 8]) == 16 && Size([4, 4]) == 8;
  }

  function PutId(id: EventId): (r: seq<byte>)
    requires id.InRange()
    ensures |r| == 20
  {
    Sizes();
    Put([4, 8, 8], [id.source, id.epoch, id.sequence])
  }

  function TakeId(b: seq<byte>): EventId
    requires |b| == 20
  {
    Sizes();
    var v := Take([4, 8, 8], b);
    EventId(v[0], v[1], v[2])
  }

  lemma TakePutId(id: EventId)
    requires id.InRange()
    ensures TakeId(PutId(id)) == id
  {
    FitsWidths(id.source);
    FitsWidths(id.epoch);
    FitsWidths(id.sequence);
    TakePut([4, 8, 8], [id.source, id.epoch, id.sequence]);
  }

  lemma PutTakeId(b: seq<byte>)
    requires |b| == 20
    ensures TakeId(b).InRange() && PutId(TakeId(b)) == b
  {
    Sizes();
    PutTake([4, 8, 8], b);
    var v := Take([4, 8, 8], b);
    FitsWidths(v[0]);
    FitsWidths(v[1]);
    FitsWidths(v[2]);
    assert v == [v[0], v[1], v[2]];
  }

  function PutEntity(e: EntityId): (r: seq<byte>)
    requires e.InRange()
    ensures |r| == 12
  {
    Sizes();
    Put([4, 4, 4], [e.shard, e.slot, e.generation])
  }

  function TakeEntity(b: seq<byte>): EntityId
    requires |b| == 12
  {
    Sizes();
    var v := Take([4, 4, 4], b);
    EntityId(v[0], v[1], v[2])
  }

  lemma TakePutEntity(e: EntityId)
    requires e.InRange()
    ensures TakeEntity(PutEntity(e)) == e
  {
    FitsWidths(e.shard);
    FitsWidths(e.slot);
    FitsWidths(e.generation);
    TakePut([4, 4, 4], [e.shard, e.slot, e.generation]);
  }

  lemma PutTakeEntity(b: seq<byte>)
    requires |b| == 12
    ensures TakeEntity(b).InRange() && PutEntity(TakeEntity(b)) == b
  {
    Sizes();
    PutTake([4, 4, 4], b);
    var v := Take([4, 4, 4], b);
    FitsWidths(v[0]);
    FitsWidths(v[1]);
    FitsWidths(v[2]);
    assert v == [v[0], v[1], v[2]];
  }

  function PutTime(t: Timestamp): (r: seq<byte>)
    requires t.InRange()
    ensures |r| == 12
  {
    Sizes();
    Put([4, 8], [t.clock, t.ticks])
  }

  function TakeTime(b: seq<byte>): Timestamp
    requires |b| == 12
  {
    Sizes();
    var v := Take([4, 8], b);
    Timestamp(v[0], v[1])
  }

  lemma TakePutTime(t: Timestamp)
    requires t.InRange()
    ensures TakeTime(PutTime(t)) == t
  {
    FitsWidths(t.clock);
    FitsWidths(t.ticks);
    TakePut([4, 8], [t.clock, t.ticks]);
  }

  lemma PutTakeTime(b: seq<byte>)
    requires |b| == 12
    ensures TakeTime(b).InRange() && PutTime(TakeTime(b)) == b
  {
    Sizes();
    PutTake([4, 8], b);
    var v := Take([4, 8], b);
    FitsWidths(v[0]);
    FitsWidths(v[1]);
    assert v == [v[0], v[1]];
  }

  function PutWord(x: int): (r: seq<byte>)
    requires 0 <= x < U32
    ensures |r| == 4
  {
    Le(x, 4)
  }

  function PutHalf(x: int): (r: seq<byte>)
    requires 0 <= x < U16
    ensures |r| == 2
  {
    Le(x, 2)
  }

  lemma WordRoundTrip(x: int, b: seq<byte>)
    ensures 0 <= x < U32 ==> FromLe(PutWord(x)) == x
    ensures |b| == 4 ==> FromLe(b) < U32 && PutWord(FromLe(b)) == b
  {
    if 0 <= x < U32 {
      FieldRoundTrip(x, 4, U32);
    }
    FitsWidths(FromLe(b));
    LeOfFromLe(b);
  }

  lemma HalfRoundTrip(x: int, b: seq<byte>)
    ensures 0 <= x < U16 ==> FromLe(PutHalf(x)) == x
    ensures |b| == 2 ==> FromLe(b) < U16 && PutHalf(FromLe(b)) == b
  {
    if 0 <= x < U16 {
      FieldRoundTrip(x, 2, U16);
    }
    FitsWidths(FromLe(b));
    LeOfFromLe(b);
  }

  // ----- The fixed part of a record

  datatype Head = Head(id: EventId, entity: EntityId, valid: Timestamp, known: Timestamp, schema: int,
                       flags: int, causes: int, payload: int)
  {
    ghost predicate InRange() {
      && id.InRange() && entity.InRange() && valid.InRange() && known.InRange()
      && 0 <= schema < U32 && 0 <= flags < U16 && 0 <= causes < U16 && 0 <= payload < U32
    }
  }

  const FIXED := 68

  ghost function PutHead(h: Head): (r: seq<byte>)
    requires h.InRange()
    ensures |r| == FIXED
  {
    PutId(h.id) + PutEntity(h.entity) + PutTime(h.valid) + PutTime(h.known) + PutWord(h.schema)
    + PutHalf(h.flags) + PutHalf(h.causes) + PutWord(h.payload)
  }

  function TakeHead(b: seq<byte>): Head
    requires |b| == FIXED
  {
    Head(TakeId(b[..20]), TakeEntity(b[20..32]), TakeTime(b[32..44]), TakeTime(b[44..56]), FromLe(b[56..60]),
         FromLe(b[60..62]), FromLe(b[62..64]), FromLe(b[64..68]))
  }

  ghost predicate Split(b: seq<byte>, h: Head)
    requires |b| == FIXED && h.InRange()
  {
    && b[..20] == PutId(h.id) && b[20..32] == PutEntity(h.entity)
    && b[32..44] == PutTime(h.valid) && b[44..56] == PutTime(h.known) && b[56..60] == PutWord(h.schema)
    && b[60..62] == PutHalf(h.flags) && b[62..64] == PutHalf(h.causes) && b[64..68] == PutWord(h.payload)
  }

  lemma HeadSplits(h: Head)
    requires h.InRange()
    ensures Split(PutHead(h), h)
  {
    hide PutId, PutEntity, PutTime, PutWord, PutHalf;
  }

  lemma SplitIsHead(b: seq<byte>, h: Head)
    requires |b| == FIXED && h.InRange() && Split(b, h)
    ensures b == PutHead(h)
  {
    hide PutId, PutEntity, PutTime, PutWord, PutHalf;
    assert b == b[..20] + b[20..32] + b[32..44] + b[44..56] + b[56..60] + b[60..62] + b[62..64] + b[64..68];
  }

  lemma TakePutHead(h: Head)
    requires h.InRange()
    ensures TakeHead(PutHead(h)) == h
  {
    hide PutHead, PutId, PutEntity, PutTime, PutWord, PutHalf, TakeId, TakeEntity, TakeTime, FromLe;
    HeadSplits(h);
    TakePutId(h.id);
    TakePutEntity(h.entity);
    TakePutTime(h.valid);
    TakePutTime(h.known);
    WordRoundTrip(h.schema, []);
    HalfRoundTrip(h.flags, []);
    HalfRoundTrip(h.causes, []);
    WordRoundTrip(h.payload, []);
  }

  lemma PutTakeHead(b: seq<byte>)
    requires |b| == FIXED
    ensures TakeHead(b).InRange() && PutHead(TakeHead(b)) == b
  {
    hide PutHead, PutId, PutEntity, PutTime, PutWord, PutHalf, TakeId, TakeEntity, TakeTime, FromLe;
    PutTakeId(b[..20]);
    PutTakeEntity(b[20..32]);
    PutTakeTime(b[32..44]);
    PutTakeTime(b[44..56]);
    WordRoundTrip(0, b[56..60]);
    HalfRoundTrip(0, b[60..62]);
    HalfRoundTrip(0, b[62..64]);
    WordRoundTrip(0, b[64..68]);
    SplitIsHead(b, TakeHead(b));
  }

  // ----- The variable part: observed time, causes, payload

  ghost predicate AllInRange(ids: seq<EventId>) {
    forall i :: 0 <= i < |ids| ==> ids[i].InRange()
  }

  ghost function PutIds(ids: seq<EventId>): (r: seq<byte>)
    requires AllInRange(ids)
    ensures |r| == 20 * |ids|
  {
    if ids == [] then [] else PutId(ids[0]) + PutIds(ids[1..])
  }

  function TakeIds(b: seq<byte>, n: nat): (ids: seq<EventId>)
    requires |b| == 20 * n
    ensures |ids| == n
  {
    if n == 0 then [] else [TakeId(b[..20])] + TakeIds(b[20..], n - 1)
  }

  lemma {:induction false} TakePutIds(ids: seq<EventId>)
    requires AllInRange(ids)
    ensures TakeIds(PutIds(ids), |ids|) == ids
  {
    hide PutId, TakeId;
    if ids != [] {
      var b := PutIds(ids);
      assert b[..20] == PutId(ids[0]) && b[20..] == PutIds(ids[1..]);
      TakePutId(ids[0]);
      TakePutIds(ids[1..]);
    }
  }

  lemma {:induction false} PutTakeIds(b: seq<byte>, n: nat)
    requires |b| == 20 * n
    ensures AllInRange(TakeIds(b, n)) && PutIds(TakeIds(b, n)) == b
  {
    hide PutId, TakeId;
    if n > 0 {
      PutTakeId(b[..20]);
      PutTakeIds(b[20..], n - 1);
      var ids := TakeIds(b, n);
      assert ids[1..] == TakeIds(b[20..], n - 1);
      assert forall i :: 1 <= i < n ==> ids[i] == ids[1..][i - 1];
      assert b == b[..20] + b[20..];
    }
  }

  /** The announced length of the variable part. */
  function TailSize(h: Head): int {
    (if h.flags == 1 then 12 else 0) + 20 * h.causes + h.payload
  }

  /** The record with this fixed part and this variable part. */
  function Assemble(h: Head, tail: seq<byte>): StoredEvent
    requires h.causes >= 0 && h.payload >= 0 && |tail| == TailSize(h)
  {
    var o := if h.flags == 1 then 12 else 0;
    var p := o + 20 * h.causes;
    StoredEvent(h.id, h.entity,
                EventTimes(h.valid, if h.flags == 1 then Some(TakeTime(tail[..12])) else None, h.known),
                h.schema, tail[p..], TakeIds(tail[o..p], h.causes))
  }

  function HeadOf(e: StoredEvent): Head {
    Head(e.id, e.entity, e.times.valid, e.times.known, e.schema,
         if e.times.observed.Some? then 1 else 0, |e.causes|, |e.payload|)
  }

  ghost function PutObserved(t: Option<Timestamp>): (r: seq<byte>)
    requires t.Some? ==> t.value.InRange()
    ensures |r| == if t.Some? then 12 else 0
  {
    if t.Some? then PutTime(t.value) else []
  }

  ghost function PutTail(e: StoredEvent): (r: seq<byte>)
    requires e.InRange()
    ensures |r| == TailSize(HeadOf(e))
  {
    PutObserved(e.times.observed) + PutIds(e.causes) + e.payload
  }

  lemma AssembleTail(e: StoredEvent)
    requires e.InRange()
    ensures Assemble(HeadOf(e), PutTail(e)) == e
  {
    hide PutTime, TakeTime, PutIds, TakeIds;
    var tail := PutTail(e);
    var o := if e.times.observed.Some? then 12 else 0;
    var p := o + 20 * |e.causes|;
    assert tail[..o] == PutObserved(e.times.observed) && tail[o..p] == PutIds(e.causes) && tail[p..] == e.payload;
    TakePutIds(e.causes);
    if e.times.observed.Some? {
      TakePutTime(e.times.observed.value);
    }
  }

  lemma TailOfAssemble(h: Head, tail: seq<byte>)
    requires h.InRange() && h.flags <= 1 && |tail| == TailSize(h)
    ensures Assemble(h, tail).InRange() && HeadOf(Assemble(h, tail)) == h && PutTail(Assemble(h, tail)) == tail
  {
    hide PutTime, TakeTime, PutIds, TakeIds;
    var o := if h.flags == 1 then 12 else 0;
    var p := o + 20 * h.causes;
    PutTakeIds(tail[o..p], h.causes);
    if h.flags == 1 {
      PutTakeTime(tail[..12]);
    }
    assert tail == tail[..o] + tail[o..p] + tail[p..];
  }

  // ----- A whole record

  /** The layout of one record. */
  ghost function PutRecord(e: StoredEvent): (r: seq<byte>)
    requires e.InRange() && |e.causes| < U16 && |e.payload| < U32
    ensures |r| == FIXED + TailSize(HeadOf(e))
  {
    PutHead(HeadOf(e)) + PutTail(e)
  }

  /** The limits the encoder checks, in its order. */
  function RecordLength(e: StoredEvent, lim: Limits): Result<nat, FormatError> {
    if |e.payload| > lim.maxPayload || |e.payload| >= U32 then Err(LimitExceeded(PayloadBytes))
    else if |e.causes| > lim.maxCauses || |e.causes| >= U16 then Err(LimitExceeded(CausesPerEvent))
    else Ok(FIXED + TailSize(HeadOf(e)))
  }

  /** Reads one record from the front of `b`; gives the record and what follows it. */
  function ParseRecord(b: seq<byte>, lim: Limits): (r: Result<(StoredEvent, seq<byte>), FormatError>)
    ensures r.Ok? ==> |r.value.1| < |b|
  {
    if |b| < 62 then Err(InvalidData)
    else if Get(b, 60, 2) > 1 then Err(InvalidData)
    else if |b| < 64 then Err(InvalidData)
    else if Get(b, 62, 2) > lim.maxCauses then Err(LimitExceeded(CausesPerEvent))
    else if |b| < FIXED then Err(InvalidData)
    else if Get(b, 64, 4) > lim.maxPayload then Err(LimitExceeded(PayloadBytes))
    else
      var h := TakeHead(b[..FIXED]);
      var n := FIXED + TailSize(h);
      if |b| < n then Err(InvalidData) else Ok((Assemble(h, b[FIXED..n]), b[n..]))
  }

  lemma HeadSlices(b: seq<byte>)
    requires |b| >= FIXED
    ensures var h := TakeHead(b[..FIXED]);
            h.flags == Get(b, 60, 2) && h.causes == Get(b, 62, 2) && h.payload == Get(b, 64, 4)
  {
    hide TakeId, TakeEntity, TakeTime;
    assert b[..FIXED][60..62] == b[60..62] && b[..FIXED][62..64] == b[62..64] && b[..FIXED][64..68] == b[64..68];
  }

  /** Whatever follows, a written record is read back. */
  lemma ParsePutRecord(e: StoredEvent, rest: seq<byte>, lim: Limits)
    requires e.InRange() && RecordLength(e, lim).Ok?
    ensures ParseRecord(PutRecord(e) + rest, lim) == Ok((e, rest))
  {
    hide PutHead, TakeHead, PutTail, Assemble, Get;
    var b := PutRecord(e) + rest;
    var n := FIXED + TailSize(HeadOf(e));
    assert b[..FIXED] == PutHead(HeadOf(e)) && b[FIXED..n] == PutTail(e) && b[n..] == rest;
    TakePutHead(HeadOf(e));
    HeadSlices(b);
    AssembleTail(e);
  }

  /** Only written records are read: the bytes consumed are the record's encoding, within the limits. */
  lemma PutParsedRecord(b: seq<byte>, lim: Limits)
    requires ParseRecord(b, lim).Ok?
    ensures var (e, rest) := ParseRecord(b, lim).value;
            e.InRange() && RecordLength(e, lim).Ok? && b == PutRecord(e) + rest
  {
    hide PutHead, TakeHead, PutTail, Assemble, Get;
    var h := TakeHead(b[..FIXED]);
    var n := FIXED + TailSize(h);
    HeadSlices(b);
    PutTakeHead(b[..FIXED]);
    TailOfAssemble(h, b[FIXED..n]);
    assert b == b[..FIXED] + b[FIXED..n] + b[n..];
  }
}
