/** The checkpoint payload of the raw reducer: the latest schema and payload of every entity. */
module RawEntityMap {
  import opened Core
  import opened Bytes
  import opened FormatRecord
  import opened FormatLayout

  datatype Raw = Raw(schema: int, payload: seq<byte>) {
    predicate InRange() {
      0 <= schema < U32 && |payload| < U32
    }
  }

  type RawMap = map<EntityId, Raw>

  datatype Entry = Entry(entity: EntityId, raw: Raw) {
    predicate InRange() {
      entity.InRange() && raw.InRange()
    }
  }

  const FIXED := 20

  function PutEntry(e: Entry): (r: seq<byte>)
    requires e.InRange()
    ensures |r| == FIXED + |e.raw.payload|
  {
    PutEntity(e.entity) + PutWord(e.raw.schema) + PutWord(|e.raw.payload|) + e.raw.payload
  }

  datatype Taken = Taken(entry: Entry, rest: seq<byte>)

  /** The entry at the front, unless it is cut short. */
  function TakeEntry(b: seq<byte>): (r: Option<Taken>)
    ensures r.Some? ==> |r.value.rest| < |b|
  {
    if |b| < FIXED then None
    else
      var n := Get(b, 16, 4);
      if |b| < FIXED + n then None
      else Some(Taken(Entry(TakeEntity(b[..12]), Raw(Get(b, 12, 4), b[FIXED..FIXED + n])), b[FIXED + n..]))
  }

  lemma TakePutEntry(e: Entry, rest: seq<byte>)
    requires e.InRange()
    ensures TakeEntry(PutEntry(e) + rest) == Some(Taken(e, rest))
  {
    hide PutEntity, TakeEntity, PutWord, FromLe;
    var b := PutEntry(e) + rest;
    var n := |e.raw.payload|;
    assert b[..12] == PutEntity(e.entity) && b[12..16] == PutWord(e.raw.schema) && b[16..20] == PutWord(n);
    assert b[FIXED..FIXED + n] == e.raw.payload && b[FIXED + n..] == rest;
    TakePutEntity(e.entity);
    WordRoundTrip(e.raw.schema, []);
    WordRoundTrip(n, []);
  }

  ghost predicate AllInRange(m: RawMap) {
    forall k :: k in m ==> k.InRange() && m[k].InRange()
  }

  /** The entries after the count, inserted into `m` in order. */
  function TakeEntries(b: seq<byte>, count: nat, m: RawMap): Option<RawMap>
    decreases count
  {
    if count == 0 then Some(m)
    else
      var t := TakeEntry(b);
      if t.None? then None
      else TakeEntries(t.value.rest, count - 1, m[t.value.entry.entity := t.value.entry.raw])
  }

  /** No bytes at all stand for the empty map. */
  function Decode(b: seq<byte>): Option<RawMap> {
    if b == [] then Some(map[])
    else if |b| < 4 then None
    else TakeEntries(b[4..], Get(b, 0, 4), map[])
  }

  /** The decoder's loop over an offset. */
  method DecodeRawEntityMap(b: seq<byte>) returns (r: Option<RawMap>)
    ensures r == Decode(b)
  {
    hide TakeEntry, FromLe;
    if b == [] {
      return Some(map[]);
    }
    if |b| < 4 {
      return None;
    }
    var count := Get(b, 0, 4);
    var offset, m: RawMap := 4, map[];
    for i := 0 to count
      invariant 4 <= offset <= |b|
      invariant TakeEntries(b[offset..], count - i, m) == TakeEntries(b[4..], count, map[])
    {
      var t := TakeEntry(b[offset..]);
      if t.None? {
        return None;
      }
      RestIsSuffix(b[offset..]);
      var next := |b| - |t.value.rest|;
      assert b[next..] == t.value.rest;
      m := m[t.value.entry.entity := t.value.entry.raw];
      offset := next;
    }
    r := Some(m);
  }

  lemma RestIsSuffix(b: seq<byte>)
    requires TakeEntry(b).Some?
    ensures var rest := TakeEntry(b).value.rest; |rest| <= |b| && rest == b[|b| - |rest|..]
  {
  }

  ghost function Restrict(m: RawMap, keys: set<EntityId>): RawMap
    requires keys <= m.Keys
  {
    map k | k in keys :: m[k]
  }

  /** `b` holds, in some order, one entry for each key of `todo`. */
  ghost predicate Lists(b: seq<byte>, m: RawMap, todo: set<EntityId>, done: RawMap)
    requires todo <= m.Keys
  {
    TakeEntries(b, |todo|, done) == Some(done + Restrict(m, todo))
  }

  /** Writes the count and every entry, and so decodes to the map. */
  method EncodeRawEntityMap(m: RawMap) returns (b: seq<byte>)
    requires AllInRange(m) && |m| < U32
    ensures Decode(b) == Some(m)
  {
    var body := EncodeEntries(m, m.Keys);
    b := PutWord(|m|) + body;
    WordRoundTrip(|m|, []);
    assert b[0..4] == PutWord(|m|) && b[4..] == body;
    Whole(m, body);
  }

  lemma Whole(m: RawMap, body: seq<byte>)
    requires forall done :: Lists(body, m, m.Keys, done)
    ensures TakeEntries(body, |m|, map[]) == Some(m)
  {
    assert Lists(body, m, m.Keys, map[]);
    assert |m.Keys| == |m|;
    assert map[] + Restrict(m, m.Keys) == m;
  }

  method EncodeEntries(m: RawMap, keys: set<EntityId>) returns (b: seq<byte>)
    requires AllInRange(m) && keys <= m.Keys
    ensures forall done :: Lists(b, m, keys, done)
    decreases keys
  {
    hide Lists, PutEntry;
    if keys == {} {
      NoEntries(m);
      return [];
    }
    var k :| k in keys;
    var rest := EncodeEntries(m, keys - {k});
    b := PutEntry(Entry(k, m[k])) + rest;
    OneMore(m, keys, k, rest);
  }

  lemma NoEntries(m: RawMap)
    ensures forall done :: Lists([], m, {}, done)
  {
    forall done: RawMap
      ensures Lists([], m, {}, done)
    {
      assert done + Restrict(m, {}) == done;
    }
  }

  lemma OneMore(m: RawMap, keys: set<EntityId>, k: EntityId, rest: seq<byte>)
    requires AllInRange(m) && keys <= m.Keys && k in keys && forall done :: Lists(rest, m, keys - {k}, done)
    ensures forall done :: Lists(PutEntry(Entry(k, m[k])) + rest, m, keys, done)
  {
    hide PutEntry, TakeEntry;
    TakePutEntry(Entry(k, m[k]), rest);
    forall done: RawMap
      ensures Lists(PutEntry(Entry(k, m[k])) + rest, m, keys, done)
    {
      var more := done[k := m[k]];
      assert Lists(rest, m, keys - {k}, more);
      assert |keys - {k}| == |keys| - 1;
      assert more + Restrict(m, keys - {k}) == done + Restrict(m, keys);
    }
  }

  /** One entry by offsets: shard, slot, generation, schema and length in four bytes each, then the payload. */
  lemma EntryLayout(e: Entry)
    requires e.InRange()
    ensures var b := PutEntry(e);
            && |b| == 20 + |e.raw.payload| && Get(b, 0, 4) == e.entity.shard && Get(b, 4, 4) == e.entity.slot
            && Get(b, 8, 4) == e.entity.generation && Get(b, 12, 4) == e.raw.schema
            && Get(b, 16, 4) == |e.raw.payload| && b[20..] == e.raw.payload
  {
    hide FromLe, PutEntity, PutWord, Get;
    var b := PutEntry(e);
    EntryWords(e);
    assert b[0..12] == PutEntity(e.entity) && b[20..] == e.raw.payload;
    EntityWithin(b, 0, e.entity);
  }

  lemma EntryWords(e: Entry)
    requires e.InRange()
    ensures Get(PutEntry(e), 12, 4) == e.raw.schema && Get(PutEntry(e), 16, 4) == |e.raw.payload|
  {
    hide FromLe, PutEntity, PutWord;
    var b := PutEntry(e);
    assert b[12..16] == PutWord(e.raw.schema) && b[16..20] == PutWord(|e.raw.payload|);
    WordRoundTrip(e.raw.schema, []);
    WordRoundTrip(|e.raw.payload|, []);
  }

  /** The count comes first: a buffer that announces one entry decodes to exactly that entry. */
  lemma OneEntry(e: Entry)
    requires e.InRange()
    ensures Decode([1, 0, 0, 0] + PutEntry(e)) == Some(map[e.entity := e.raw])
  {
    hide PutEntry, TakeEntry, Get;
    var b: seq<byte> := [1, 0, 0, 0] + PutEntry(e);
    FourBytes(b, 0);
    assert b[4..] == PutEntry(e) + [];
    OnlyEntry(e);
  }

  lemma OnlyEntry(e: Entry)
    requires e.InRange()
    ensures TakeEntries(PutEntry(e) + [], 1, map[]) == Some(map[e.entity := e.raw])
  {
    hide PutEntry, TakeEntry;
    TakePutEntry(e, []);
    assert TakeEntries([], 0, map[e.entity := e.raw]) == Some(map[e.entity := e.raw]);
  }
}
