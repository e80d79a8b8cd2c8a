/** Tiered segment storage with least-recently-used demotion. */
module Tiering {
  import opened Core

  datatype Tier = Cold | Warm | Hot {
    function Rank(): int {
      match this
      case Cold => 0
      case Warm => 1
      case Hot => 2
    }
  }

  datatype Segment = Segment(size: nat, tier: Tier, accesses: int, last: int)

  /** Segment identifiers are 64-bit. */
  type Segments = map<int, Segment>

  ghost predicate Ids(m: Segments) {
    forall id :: id in m ==> 0 <= id < U64
  }

  // ----- Bytes in a tier

  function Share(m: Segments, t: Tier, id: int): nat {
    if id in m && m[id].tier == t then m[id].size else 0
  }

  /** Bytes of tier `t` among identifiers below `n`. */
  ghost function Below(m: Segments, t: Tier, n: nat): nat {
    if n == 0 then 0 else Below(m, t, n - 1) + Share(m, t, n - 1)
  }

  ghost function Bytes(m: Segments, t: Tier): nat {
    Below(m, t, U64)
  }

  /** Maps that differ at `id` only. */
  lemma {:induction false} BelowDiffers(m: Segments, k: Segments, t: Tier, id: int, n: nat)
    requires forall j :: j != id ==> Share(m, t, j) == Share(k, t, j)
    ensures Below(k, t, n) == Below(m, t, n) + if 0 <= id < n then Share(k, t, id) - Share(m, t, id) else 0
  {
    if n > 0 {
      BelowDiffers(m, k, t, id, n - 1);
      assert n - 1 != id ==> Share(m, t, n - 1) == Share(k, t, n - 1);
    }
  }

  lemma BytesDiffer(m: Segments, k: Segments, t: Tier, id: int)
    requires 0 <= id < U64 && forall j :: j != id ==> Share(m, t, j) == Share(k, t, j)
    ensures Bytes(k, t) == Bytes(m, t) + Share(k, t, id) - Share(m, t, id)
  {
    BelowDiffers(m, k, t, id, U64);
  }

  lemma {:induction false} NoneBelow(m: Segments, t: Tier, n: nat)
    requires forall j :: Share(m, t, j) == 0
    ensures Below(m, t, n) == 0
  {
    if n > 0 {
      NoneBelow(m, t, n - 1);
    }
  }

  lemma {:induction false} ShareBelow(m: Segments, t: Tier, id: int, n: nat)
    requires 0 <= id < n
    ensures Share(m, t, id) <= Below(m, t, n)
  {
    if id < n - 1 {
      ShareBelow(m, t, id, n - 1);
    }
  }

  /** Sums the sizes of one tier, segment by segment. */
  method TotalBytesInTier(m: Segments, t: Tier) returns (total: nat)
    requires Ids(m)
    ensures total == Bytes(m, t)
  {
    hide Bytes;
    total := 0;
    var rest := m;
    while rest.Keys != {}
      invariant Ids(rest) && total + Bytes(rest, t) == Bytes(m, t)
      decreases rest.Keys
    {
      var id := Pick(rest.Keys);
      var less := rest - {id};
      BytesDiffer(rest, less, t, id);
      total := total + Share(rest, t, id);
      rest := less;
    }
    assert Bytes(rest, t) == 0 by {
      NoBytes(rest, t);
    }
  }

  lemma NoBytes(m: Segments, t: Tier)
    requires forall j :: Share(m, t, j) == 0
    ensures Bytes(m, t) == 0
  {
    NoneBelow(m, t, U64);
  }

  // ----- Choosing and demoting

  /** Used less recently; between equals the smaller identifier. */
  predicate Older(m: Segments, a: int, b: int)
    requires a in m && b in m
  {
    m[a].last < m[b].last || (m[a].last == m[b].last && a < b)
  }

  ghost predicate IsLru(m: Segments, t: Tier, r: Option<int>) {
    && (r.None? ==> forall j :: j in m ==> m[j].tier != t)
    && (r.Some? ==> r.value in m && m[r.value].tier == t
                    && forall j :: j in m && m[j].tier == t && j != r.value ==> Older(m, r.value, j))
  }

  method LeastRecentlyUsed(m: Segments, t: Tier) returns (r: Option<int>)
    ensures IsLru(m, t, r)
  {
    r := None;
    var todo := m.Keys;
    while todo != {}
      invariant todo <= m.Keys
      invariant r.None? ==> forall j :: j in m && j !in todo ==> m[j].tier != t
      invariant r.Some? ==> r.value in m && r.value !in todo && m[r.value].tier == t
      invariant r.Some? ==> forall j :: j in m && j !in todo && m[j].tier == t && j != r.value ==> Older(m, r.value, j)
      decreases todo
    {
      var id := Pick(todo);
      todo := todo - {id};
      if m[id].tier == t && (r.None? || Older(m, id, r.value)) {
        r := Some(id);
      }
    }
  }

  function Demote(m: Segments, id: int, to: Tier): Segments
    requires id in m
  {
    m[id := m[id].(tier := to)]
  }

  /** `r` is `m` with some segments of tier `from` moved to `to`, and nothing else changed. */
  ghost predicate Moved(m: Segments, r: Segments, from: Tier, to: Tier) {
    && r.Keys == m.Keys
    && forall id :: id in m ==> r[id] == m[id] || (m[id].tier == from && r[id] == m[id].(tier := to))
  }

  ghost predicate Left(m: Segments, r: Segments, from: Tier, id: int)
    requires r.Keys == m.Keys
  {
    id in m && m[id].tier == from && r[id].tier != from
  }

  ghost predicate Stayed(m: Segments, r: Segments, from: Tier, id: int)
    requires r.Keys == m.Keys
  {
    id in m && m[id].tier == from && r[id].tier == from
  }

  /** Whatever stayed was used more recently than whatever left. */
  ghost predicate OldestLeft(m: Segments, r: Segments, from: Tier)
    requires r.Keys == m.Keys
  {
    forall a, b :: Stayed(m, r, from, a) && Left(m, r, from, b) ==> Older(m, b, a)
  }

  /** The most recently used segment that left had to leave. */
  ghost predicate Needed(m: Segments, r: Segments, from: Tier, cap: nat)
    requires r.Keys == m.Keys
  {
    forall b :: Left(m, r, from, b) && (forall c :: Left(m, r, from, c) && c != b ==> Older(m, c, b))
      ==> Bytes(r, from) + m[b].size > cap
  }

  ghost predicate Evicted(m: Segments, r: Segments, from: Tier, to: Tier, cap: nat) {
    && Moved(m, r, from, to) && OldestLeft(m, r, from) && Needed(m, r, from, cap) && Bytes(r, from) <= cap
  }

  lemma DemoteBytes(m: Segments, id: int, from: Tier, to: Tier)
    requires Ids(m) && id in m && m[id].tier == from && from != to
    ensures Bytes(Demote(m, id, to), from) == Bytes(m, from) - m[id].size
  {
    BytesDiffer(m, Demote(m, id, to), from, id);
  }

  lemma DemoteKeepsOrder(m: Segments, r: Segments, from: Tier, to: Tier, id: int)
    requires from != to && Moved(m, r, from, to) && OldestLeft(m, r, from) && IsLru(r, from, Some(id))
    ensures var k := Demote(r, id, to); Moved(m, k, from, to) && OldestLeft(m, k, from)
  {
    var k := Demote(r, id, to);
    forall a, b | Stayed(m, k, from, a) && Left(m, k, from, b)
      ensures Older(m, b, a)
    {
      assert Stayed(m, r, from, a);
      if b == id {
        assert Older(r, id, a);
      } else {
        assert Left(m, r, from, b);
      }
    }
  }

  lemma DemoteNeeded(m: Segments, r: Segments, from: Tier, to: Tier, cap: nat, id: int)
    requires Ids(r) && from != to && Moved(m, r, from, to) && OldestLeft(m, r, from)
    requires id in r && r[id].tier == from && Bytes(r, from) > cap
    ensures Needed(m, Demote(r, id, to), from, cap)
  {
    hide Bytes, Ids;
    var k := Demote(r, id, to);
    assert Stayed(m, r, from, id) && Left(m, k, from, id);
    DemoteBytes(r, id, from, to);
    forall b | Left(m, k, from, b) && (forall c :: Left(m, k, from, c) && c != b ==> Older(m, c, b))
      ensures b == id
    {
      assert b == id || Left(m, r, from, b);
    }
  }

  /** Demotes least recently used segments until the tier fits. */
  method Evict(m: Segments, from: Tier, to: Tier, cap: nat) returns (r: Segments)
    requires Ids(m) && from != to
    ensures Evicted(m, r, from, to, cap) && Ids(r)
  {
    hide Bytes, Moved, OldestLeft, Needed, IsLru;
    r := m;
    Untouched(m, from, to, cap);
    while true
      invariant Ids(r) && r.Keys == m.Keys
      invariant Moved(m, r, from, to) && OldestLeft(m, r, from) && Needed(m, r, from, cap)
      decreases InTier(r, from)
    {
      var total := TotalBytesInTier(r, from);
      if total <= cap {
        break;
      }
      var lru := LeastRecentlyUsed(r, from);
      SomeLru(r, from, lru);
      DemoteKeepsOrder(m, r, from, to, lru.value);
      DemoteNeeded(m, r, from, to, cap, lru.value);
      Fewer(r, lru.value, from, to);
      r := Demote(r, lru.value, to);
    }
  }

  lemma Untouched(m: Segments, from: Tier, to: Tier, cap: nat)
    ensures Moved(m, m, from, to) && OldestLeft(m, m, from) && Needed(m, m, from, cap)
  {
  }

  lemma SomeLru(m: Segments, t: Tier, r: Option<int>)
    requires IsLru(m, t, r) && Bytes(m, t) > 0
    ensures r.Some? && r.value in m && m[r.value].tier == t
  {
    hide Bytes;
    if r.None? {
      NoBytes(m, t);
    }
  }

  ghost function InTier(m: Segments, t: Tier): set<int> {
    set j | j in m && m[j].tier == t
  }

  lemma Fewer(m: Segments, id: int, from: Tier, to: Tier)
    requires id in m && m[id].tier == from && from != to
    ensures InTier(Demote(m, id, to), from) < InTier(m, from)
  {
    assert id in InTier(m, from) && InTier(Demote(m, id, to), from) == InTier(m, from) - {id};
  }

  // ----- Both tiers

  /** What enforcing the capacities does: oldest hot segments become warm, then oldest warm ones become cold. */
  ghost predicate Enforced(m: Segments, mid: Segments, r: Segments, hotCap: nat, warmCap: nat) {
    Evicted(m, mid, Hot, Warm, hotCap) && Evicted(mid, r, Warm, Cold, warmCap)
  }

  /** Nothing is lost and nothing rises: the same segments, of the same sizes and histories, in no higher a tier. */
  ghost predicate Conserved(m: Segments, r: Segments) {
    && r.Keys == m.Keys
    && forall id :: id in m ==> r[id] == m[id].(tier := r[id].tier) && r[id].tier.Rank() <= m[id].tier.Rank()
  }

  /** A segment left warm was used more recently than any segment that went cold. */
  ghost predicate WarmIsRecent(m: Segments, r: Segments)
    requires r.Keys == m.Keys
  {
    forall a, b :: a in m && b in m && r[a].tier == Warm && r[b].tier == Cold && m[b].tier != Cold ==> Older(m, b, a)
  }

  lemma WarmStays(m: Segments, r: Segments)
    requires Moved(m, r, Warm, Cold)
    ensures forall j :: Share(m, Hot, j) == Share(r, Hot, j)
  {
  }

  lemma EnforcedMeans(m: Segments, mid: Segments, r: Segments, hotCap: nat, warmCap: nat)
    requires Enforced(m, mid, r, hotCap, warmCap)
    ensures Conserved(m, r)
    ensures Bytes(r, Hot) <= hotCap && Bytes(r, Warm) <= warmCap
    ensures OldestLeft(m, r, Hot) && WarmIsRecent(m, r)
  {
    hide Bytes, Needed;
    WarmStays(mid, r);
    SameShares(mid, r, Hot);
    assert OldestLeft(m, r, Hot) by {
      forall a, b | Stayed(m, r, Hot, a) && Left(m, r, Hot, b)
        ensures Older(m, b, a)
      {
        assert Stayed(m, mid, Hot, a) && Left(m, mid, Hot, b);
      }
    }
    forall a, b | a in m && b in m && r[a].tier == Warm && r[b].tier == Cold && m[b].tier != Cold
      ensures Older(m, b, a)
    {
      assert Stayed(mid, r, Warm, a) && Left(mid, r, Warm, b);
      assert Older(mid, b, a);
    }
  }

  lemma SameShares(m: Segments, r: Segments, t: Tier)
    requires forall j :: Share(m, t, j) == Share(r, t, j)
    ensures Bytes(m, t) == Bytes(r, t)
  {
    BelowDiffers(m, r, t, -1, U64);
  }

  /** All bytes, whatever the tier, are still there. */
  lemma {:induction false} AllBytesConserved(m: Segments, r: Segments, n: nat)
    requires Conserved(m, r)
    ensures Below(m, Hot, n) + Below(m, Warm, n) + Below(m, Cold, n)
            == Below(r, Hot, n) + Below(r, Warm, n) + Below(r, Cold, n)
  {
    if n > 0 {
      AllBytesConserved(m, r, n - 1);
    }
  }

  // ----- The segment used last

  /** Used after every other segment. */
  ghost predicate MostRecent(m: Segments, id: int) {
    id in m && forall j :: j in m && j != id ==> m[j].last < m[id].last
  }

  /** The most recently used segment keeps its tier exactly when it fits there by itself. */
  lemma RecentKeepsExactly(m: Segments, r: Segments, from: Tier, to: Tier, cap: nat, id: int)
    requires Ids(m) && from != to && Evicted(m, r, from, to, cap) && MostRecent(m, id) && m[id].tier == from
    ensures r[id].tier == from <==> m[id].size <= cap
  {
    hide Bytes;
    if r[id].tier == from {
      ShareBytes(r, from, id);
    } else {
      assert Left(m, r, from, id);
      forall j
        ensures Share(r, from, j) == 0
      {
        NoneStayed(m, r, from, id, j);
      }
      NoBytes(r, from);
    }
  }

  lemma NoneStayed(m: Segments, r: Segments, from: Tier, id: int, j: int)
    requires r.Keys == m.Keys && OldestLeft(m, r, from) && Left(m, r, from, id) && MostRecent(m, id)
    ensures !Stayed(m, r, from, j)
  {
  }

  lemma ShareBytes(m: Segments, t: Tier, id: int)
    requires 0 <= id < U64
    ensures Share(m, t, id) <= Bytes(m, t)
  {
    ShareBelow(m, t, id, U64);
  }

  class TieredStorageManager {
    const hotCap: nat
    const warmCap: nat
    var step: int
    var segments: Segments

    ghost predicate Valid()
      reads this
    {
      Ids(segments) && forall id :: id in segments ==> segments[id].last <= step
    }

    ghost predicate WithinCapacity()
      reads this
    {
      Bytes(segments, Hot) <= hotCap && Bytes(segments, Warm) <= warmCap
    }

    constructor (hotCap: nat, warmCap: nat)
      ensures Valid() && segments == map[] && step == 0 && this.hotCap == hotCap && this.warmCap == warmCap
    {
      this.hotCap, this.warmCap, step, segments := hotCap, warmCap, 0, map[];
    }

    method RegisterSegment(id: int, size: nat, tier: Tier)
      requires Valid() && 0 <= id < U64
      modifies this
      ensures Valid() && step == old(step) && segments == old(segments)[id := Segment(size, tier, 0, step)]
    {
      segments := segments[id := Segment(size, tier, 0, step)];
    }

    method EnforceCapacity() returns (ghost mid: Segments)
      requires Valid()
      modifies this`segments
      ensures Enforced(old(segments), mid, segments, hotCap, warmCap) && Valid()
      ensures Conserved(old(segments), segments) && WithinCapacity()
      ensures OldestLeft(old(segments), segments, Hot) && WarmIsRecent(old(segments), segments)
    {
      hide Evicted, Bytes;
      var cooled := Evict(segments, Hot, Warm, hotCap);
      mid := cooled;
      var done := Evict(cooled, Warm, Cold, warmCap);
      EnforcedMeans(segments, cooled, done, hotCap, warmCap);
      segments := done;
    }

    /** One more use: the step always advances; a cold segment used twice becomes warm; then capacities are enforced.
        The tier returned is the one before enforcement, and is still the segment's tier exactly when the segment
        fits into that tier by itself. */
    method RecordAccess(id: int) returns (r: Option<Tier>, ghost mid: Segments)
      requires Valid()
      modifies this
      ensures Valid() && step == old(step) + 1 && (r.Some? <==> id in old(segments))
      ensures r.None? ==> segments == old(segments)
      ensures r.Some? ==> var s := old(segments)[id];
                          var promoted := s.tier == Cold && s.accesses >= 1;
                          var m := old(segments)[id :=
                            Segment(s.size, if promoted then Warm else s.tier, s.accesses + 1, old(step) + 1)];
                          && Enforced(m, mid, segments, hotCap, warmCap) && Conserved(m, segments) && WithinCapacity()
                          && r.value == m[id].tier
                          && (segments[id].tier == r.value <==> Fits(m[id]))
    {
      hide Enforced, Bytes, Conserved;
      step := step + 1;
      mid := map[];
      if id !in segments {
        return None, mid;
      }
      ghost var before := segments;
      var s := segments[id];
      s := s.(accesses := s.accesses + 1, last := step);
      if s.tier == Cold && s.accesses >= 2 {
        s := s.(tier := Warm);
      }
      segments := segments[id := s];
      ghost var touched := segments;
      assert touched == before[id := s] && MostRecent(touched, id);
      mid := EnforceCapacity();
      TouchedKeeps(touched, mid, segments, hotCap, warmCap, id);
      r := Some(s.tier);
    }

    ghost predicate Fits(s: Segment)
      reads this
    {
      match s.tier
      case Hot => s.size <= hotCap
      case Warm => s.size <= warmCap
      case Cold => true
    }

    method Migrate(id: int, target: Tier) returns (ok: bool, ghost mid: Segments)
      requires Valid()
      modifies this
      ensures Valid() && step == old(step) && (ok <==> id in old(segments))
      ensures !ok ==> segments == old(segments)
      ensures ok ==> var m := old(segments)[id := old(segments)[id].(tier := target)];
                     Enforced(m, mid, segments, hotCap, warmCap) && Conserved(m, segments) && WithinCapacity()
    {
      hide Enforced, Bytes, Conserved;
      mid := map[];
      if id !in segments {
        return false, mid;
      }
      segments := segments[id := segments[id].(tier := target)];
      mid := EnforceCapacity();
      ok := true;
    }
  }

  /** A new cold segment stays cold on its first use and is warm after the second, if it fits there at all. */
  method UsedTwice(t: TieredStorageManager, id: int, size: nat) returns (first: Option<Tier>, second: Option<Tier>)
    requires t.Valid() && 0 <= id < U64
    modifies t
    ensures t.Valid() && first == Some(Cold) && second == Some(Warm) && id in t.segments
    ensures t.segments[id] == Segment(size, if size <= t.warmCap then Warm else Cold, 2, old(t.step) + 2)
  {
    hide Enforced, Bytes;
    t.RegisterSegment(id, size, Cold);
    var a, m1 := t.RecordAccess(id);
    var b, m2 := t.RecordAccess(id);
    first, second := a, b;
  }

  lemma TouchedKeeps(m: Segments, mid: Segments, r: Segments, hotCap: nat, warmCap: nat, id: int)
    requires Ids(m) && Enforced(m, mid, r, hotCap, warmCap) && MostRecent(m, id)
    ensures id in r
    ensures r[id].tier == m[id].tier
       <==> match m[id].tier case Hot => m[id].size <= hotCap case Warm => m[id].size <= warmCap case Cold => true
  {
    hide Bytes, OldestLeft, Needed;
    if m[id].tier == Hot {
      RecentKeepsExactly(m, mid, Hot, Warm, hotCap, id);
    } else if m[id].tier == Warm {
      assert MostRecent(mid, id);
      RecentKeepsExactly(mid, r, Warm, Cold, warmCap, id);
    }
  }
}
