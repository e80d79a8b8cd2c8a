/** The encoder that appends to a buffer and the decoder that advances a cursor, proved against the record layout. */
module FormatCursor {
  import opened Core
  import opened Bytes
  import opened Crc32
  import opened FormatRecord
  import opened Slices
  import Batch = FormatBatch

  // ----- Writing

  method WriteIds(bytes: seq<byte>, ids: seq<EventId>) returns (out: seq<byte>)
    requires AllInRange(ids)
    ensures out == bytes + PutIds(ids)
  {
    hide PutId;
    out := bytes;
    for i := 0 to |ids|
      invariant out + PutIds(ids[i..]) == bytes + PutIds(ids)
    {
      assert ids[i..][1..] == ids[i + 1..];
      out := out + PutId(ids[i]);
    }
  }

  /** Appends one record, or refuses lengths its fields cannot hold. */
  method WriteRecord(bytes: seq<byte>, e: StoredEvent) returns (r: Result<seq<byte>, FormatError>)
    requires e.InRange()
    ensures |e.payload| >= U32 ==> r == Err(LimitExceeded(PayloadBytes))
    ensures |e.payload| < U32 && |e.causes| >= U16 ==> r == Err(LimitExceeded(CausesPerEvent))
    ensures |e.payload| < U32 && |e.causes| < U16 ==> r == Ok(bytes + PutRecord(e))
  {
    hide PutId, PutEntity, PutTime, PutIds, PutWord, PutHalf;
    if |e.payload| >= U32 {
      return Err(LimitExceeded(PayloadBytes));
    }
    if |e.causes| >= U16 {
      return Err(LimitExceeded(CausesPerEvent));
    }
    var head := PutId(e.id) + PutEntity(e.entity) + PutTime(e.times.valid) + PutTime(e.times.known) + PutWord(e.schema);
    head := head + PutHalf(if e.times.observed.Some? then 1 else 0) + PutHalf(|e.causes|) + PutWord(|e.payload|);
    assert head == PutHead(HeadOf(e));
    var tail := if e.times.observed.Some? then PutTime(e.times.observed.value) else [];
    var out := WriteIds(bytes + head + tail, e.causes);
    out := out + e.payload;
    assert out == bytes + (head + (tail + PutIds(e.causes) + e.payload));
    r := Ok(out);
  }

  // ----- Reading

  /** The next `n` bytes, when there are that many. */
  method ReadFixed(body: seq<byte>, cursor: nat, n: nat) returns (r: Option<seq<byte>>, next: nat)
    requires cursor <= |body|
    ensures r.Some? <==> cursor + n <= |body|
    ensures r.Some? ==> r.value == body[cursor..cursor + n] && next == cursor + n
  {
    if cursor + n > |body| {
      return None, cursor;
    }
    return Some(body[cursor..cursor + n]), cursor + n;
  }

  /** The five fields before the flags. */
  method ReadIdentity(body: seq<byte>, cursor: nat) returns (r: Option<Head>, next: nat)
    requires cursor <= |body|
    ensures r.Some? <==> cursor + 60 <= |body|
    ensures r.Some? ==> next == cursor + 60 && IsIdentity(r.value, body[cursor..cursor + 60])
  {
    hide TakeId, TakeEntity, TakeTime, FromLe;
    var id, c1 := ReadFixed(body, cursor, 20);
    if id.None? {
      return None, cursor;
    }
    var entity, c2 := ReadFixed(body, c1, 12);
    if entity.None? {
      return None, cursor;
    }
    var valid, c3 := ReadFixed(body, c2, 12);
    if valid.None? {
      return None, cursor;
    }
    var known, c4 := ReadFixed(body, c3, 12);
    if known.None? {
      return None, cursor;
    }
    var schema, c5 := ReadFixed(body, c4, 4);
    if schema.None? {
      return None, cursor;
    }
    ghost var s := body[cursor..cursor + 60];
    assert s[..20] == id.value;
    assert s[20..32] == entity.value by { SubSlice(body, cursor, cursor + 60, 20, 32); }
    assert s[32..44] == valid.value by { SubSlice(body, cursor, cursor + 60, 32, 44); }
    assert s[44..56] == known.value by { SubSlice(body, cursor, cursor + 60, 44, 56); }
    assert s[56..60] == schema.value by { SubSlice(body, cursor, cursor + 60, 56, 60); }
    r := Some(Head(TakeId(id.value), TakeEntity(entity.value), TakeTime(valid.value), TakeTime(known.value),
                   FromLe(schema.value), 0, 0, 0));
    next := c5;
  }

  ghost predicate IsIdentity(h: Head, s: seq<byte>)
    requires |s| == 60
  {
    && h.id == TakeId(s[..20]) && h.entity == TakeEntity(s[20..32]) && h.valid == TakeTime(s[32..44])
    && h.known == TakeTime(s[44..56]) && h.schema == FromLe(s[56..60])
  }

  /** The fixed part, checked in the decoder's order. */
  method ReadHead(body: seq<byte>, cursor: nat, lim: Limits) returns (r: Result<Head, FormatError>, next: nat)
    requires cursor <= |body|
    ensures r.Err? ==> ParseRecord(body[cursor..], lim) == Err(r.error)
    ensures r.Ok? ==> HeadRead(body, cursor, lim, r.value) && next == cursor + FIXED
  {
    hide TakeId, TakeEntity, TakeTime, TakeHead, FromLe;
    ghost var b := body[cursor..];
    var identity, c1 := ReadIdentity(body, cursor);
    if identity.None? {
      return Err(InvalidData), cursor;
    }
    var flags, c2 := ReadFixed(body, c1, 2);
    if flags.None? {
      return Err(InvalidData), cursor;
    }
    assert b[60..62] == flags.value;
    if FromLe(flags.value) > 1 {
      return Err(InvalidData), cursor;
    }
    var causes, c3 := ReadFixed(body, c2, 2);
    if causes.None? {
      return Err(InvalidData), cursor;
    }
    assert b[62..64] == causes.value;
    if FromLe(causes.value) > lim.maxCauses {
      return Err(LimitExceeded(CausesPerEvent)), cursor;
    }
    var payload, c4 := ReadFixed(body, c3, 4);
    if payload.None? {
      return Err(InvalidData), cursor;
    }
    assert b[64..68] == payload.value;
    if FromLe(payload.value) > lim.maxPayload {
      return Err(LimitExceeded(PayloadBytes)), cursor;
    }
    var h := identity.value.(
      flags := FromLe(flags.value), causes := FromLe(causes.value), payload := FromLe(payload.value));
    HeadOfParts(b, h, body[cursor..cursor + 60]);
    r, next := Ok(h), c4;
  }

  ghost predicate HeadRead(body: seq<byte>, cursor: nat, lim: Limits, h: Head)
    requires cursor <= |body|
  {
    && cursor + FIXED <= |body| && h == TakeHead(body[cursor..][..FIXED])
    && 0 <= h.flags <= 1 && 0 <= h.causes <= lim.maxCauses && 0 <= h.payload <= lim.maxPayload
  }

  lemma HeadOfParts(b: seq<byte>, h: Head, s: seq<byte>)
    requires |b| >= FIXED && |s| == 60 && b[..60] == s && IsIdentity(h, s)
    requires h.flags == FromLe(b[60..62]) && h.causes == FromLe(b[62..64]) && h.payload == FromLe(b[64..68])
    ensures h == TakeHead(b[..FIXED])
  {
    hide TakeId, TakeEntity, TakeTime, FromLe;
    var t := b[..FIXED];
    assert t[..20] == s[..20] && t[20..32] == s[20..32] && t[32..44] == s[32..44] && t[44..56] == s[44..56];
    assert t[56..60] == s[56..60] && t[60..62] == b[60..62] && t[62..64] == b[62..64] && t[64..68] == b[64..68];
  }

  method ReadIds(body: seq<byte>, cursor: nat, n: nat) returns (r: Option<seq<EventId>>, next: nat)
    requires cursor <= |body|
    ensures r.Some? <==> cursor + 20 * n <= |body|
    ensures r.Some? ==> next == cursor + 20 * n && r.value == TakeIds(body[cursor..cursor + 20 * n], n)
  {
    hide TakeId;
    var ids: seq<EventId>, at := [], cursor;
    for i := 0 to n
      invariant at == cursor + 20 * i <= |body|
      invariant ids == TakeIds(body[cursor..at], i)
    {
      var one, c := ReadFixed(body, at, 20);
      if one.None? {
        return None, cursor;
      }
      ghost var s := body[cursor..c];
      assert s[..20 * i] == body[cursor..at] && s[20 * i..] == one.value;
      TakeIdsSnoc(s, i);
      ids := ids + [TakeId(one.value)];
      at := c;
    }
    r, next := Some(ids), at;
  }

  lemma {:induction false} TakeIdsSnoc(s: seq<byte>, n: nat)
    requires |s| == 20 * (n + 1)
    ensures TakeIds(s, n + 1) == TakeIds(s[..20 * n], n) + [TakeId(s[20 * n..])]
  {
    hide TakeId;
    if n > 0 {
      TakeIdsSnoc(s[20..], n - 1);
      assert s[..20 * n][..20] == s[..20] && s[..20 * n][20..] == s[20..][..20 * (n - 1)];
      assert s[20..][20 * (n - 1)..] == s[20 * n..];
    } else {
      assert s[..20] == s && s[0..] == s;
    }
  }

  /** Observed time, causes and payload. */
  method ReadTail(body: seq<byte>, cursor: nat, h: Head) returns (r: Option<StoredEvent>, next: nat)
    requires cursor <= |body| && 0 <= h.flags <= 1 && h.causes >= 0 && h.payload >= 0
    ensures r.Some? <==> cursor + TailSize(h) <= |body|
    ensures r.Some? ==> next == cursor + TailSize(h) && r.value == Assemble(h, body[cursor..cursor + TailSize(h)])
  {
    hide TakeTime, TakeIds;
    var observed: Option<Timestamp>, c1 := None, cursor;
    if h.flags == 1 {
      var bytes, c := ReadFixed(body, cursor, 12);
      if bytes.None? {
        return None, cursor;
      }
      observed, c1 := Some(TakeTime(bytes.value)), c;
    }
    var causes, c2 := ReadIds(body, c1, h.causes);
    if causes.None? {
      return None, cursor;
    }
    var payload, c3 := ReadFixed(body, c2, h.payload);
    if payload.None? {
      return None, cursor;
    }
    ghost var tail := body[cursor..cursor + TailSize(h)];
    ghost var o: nat := if h.flags == 1 then 12 else 0;
    ghost var p := o + 20 * h.causes;
    assert h.flags == 1 ==> tail[..12] == body[cursor..cursor + 12];
    SubSlice(body, cursor, cursor + TailSize(h), o, p);
    assert tail[p..] == tail[p..|tail|];
    SubSlice(body, cursor, cursor + TailSize(h), p, |tail|);
    var times := EventTimes(h.valid, observed, h.known);
    r := Some(StoredEvent(h.id, h.entity, times, h.schema, payload.value, causes.value));
    next := c3;
  }

  /** One record at the cursor. */
  method ReadRecord(body: seq<byte>, cursor: nat, lim: Limits) returns (r: Result<StoredEvent, FormatError>, next: nat)
    requires cursor <= |body|
    ensures r.Err? ==> ParseRecord(body[cursor..], lim) == Err(r.error)
    ensures r.Ok? ==> cursor <= next <= |body| && ParseRecord(body[cursor..], lim) == Ok((r.value, body[next..]))
  {
    hide TakeHead, Assemble;
    var head, c := ReadHead(body, cursor, lim);
    if head.Err? {
      return Err(head.error), cursor;
    }
    var h := head.value;
    ghost var b := body[cursor..];
    HeadSlices(b);
    var e, n := ReadTail(body, c, h);
    if e.None? {
      return Err(InvalidData), cursor;
    }
    assert b[FIXED..FIXED + TailSize(h)] == body[c..n] && b[FIXED + TailSize(h)..] == body[n..];
    r, next := Ok(e.value), n;
  }

  // ----- Batches

  method EncodeBatch(rs: seq<StoredEvent>, lim: Limits) returns (r: Result<seq<byte>, FormatError>)
    requires Batch.AllInRange(rs)
    ensures r == Batch.EncodeBatch(rs, lim)
  {
    hide RecordLength, PutRecord, Batch.Prelude, Crc, Le;
    if |rs| > lim.maxRecords {
      return Err(LimitExceeded(RecordsPerBatch));
    }
    var n := MeasureBodies(rs, lim);
    if n.Err? {
      return Err(n.error);
    }
    if Batch.HEADER + n.value > lim.maxFrame || Batch.HEADER + n.value >= U32 {
      return Err(LimitExceeded(FrameBytes));
    }
    var body := WriteBodies(rs, lim);
    var prelude := Batch.Prelude(Batch.HEADER + |body|, |rs|, body);
    r := Ok(prelude + Le(Crc(prelude), 4) + body);
  }

  method MeasureBodies(rs: seq<StoredEvent>, lim: Limits) returns (r: Result<nat, FormatError>)
    ensures r == Batch.BodyLength(rs, lim)
  {
    hide RecordLength;
    var total := 0;
    for i := 0 to |rs|
      invariant Batch.BodyLength(rs[..i], lim) == Ok(total)
    {
      assert rs[..i + 1][..i] == rs[..i];
      var n := RecordLength(rs[i], lim);
      if n.Err? {
        Batch.FailureStays(rs, i + 1, lim);
        return n;
      }
      total := total + n.value;
    }
    assert rs[..|rs|] == rs;
    r := Ok(total);
  }

  method WriteBodies(rs: seq<StoredEvent>, lim: Limits) returns (body: seq<byte>)
    requires Batch.AllInRange(rs) && Batch.BodyLength(rs, lim).Ok?
    ensures body == Batch.Bodies(rs, lim)
  {
    hide PutRecord, Batch.BodyLength, StoredEvent.InRange;
    body := [];
    Batch.PrefixFine(rs, 0, lim);
    for i := 0 to |rs|
      invariant Batch.AllInRange(rs[..i]) && Batch.BodyLength(rs[..i], lim).Ok?
      invariant body == Batch.Bodies(rs[..i], lim)
    {
      Batch.PrefixFine(rs, i + 1, lim);
      assert rs[..i + 1][..i] == rs[..i];
      var out := WriteRecord(body, rs[i]);
      body := out.value;
    }
    assert rs[..|rs|] == rs;
  }

  method DecodeBatch(b: seq<byte>, lim: Limits) returns (r: Result<seq<StoredEvent>, FormatError>)
    ensures r == Batch.DecodeBatch(b, lim)
  {
    hide Get, Batch.FrameLength, ParseRecord, Crc;
    var length := Batch.FrameLength(b, lim);
    if length.Err? {
      return Err(length.error);
    }
    if |b| < length.value {
      return Err(Incomplete(length.value, |b|));
    }
    if |b| > length.value {
      return Err(InvalidData);
    }
    if Get(b, 16, 4) != Crc(b[Batch.HEADER..]) {
      return Err(ChecksumMismatch);
    }
    var body, count := b[Batch.HEADER..length.value], Get(b, 12, 4);
    assert body == b[Batch.HEADER..];
    var records, cursor := [], 0;
    for i := 0 to count
      invariant 0 <= cursor <= |body|
      invariant Batch.ParseRecords(body, i, lim) == Ok((records, body[cursor..]))
    {
      var one, next := ReadRecord(body, cursor, lim);
      if one.Err? {
        Batch.ParseFailureStays(body, i + 1, count, lim);
        return Err(one.error);
      }
      records, cursor := records + [one.value], next;
    }
    if cursor != |body| {
      return Err(InvalidData);
    }
    r := Ok(records);
  }
}
