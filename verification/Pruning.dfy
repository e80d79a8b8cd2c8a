/** Block and segment summaries, and the decision to skip what cannot hold a match. */
module Pruning {
  import opened Core
  import opened Bloom

  /** What a summary sees of a record. */
  datatype Rec = Rec(sequence: int, entity: EntityId, schema: nat, times: EventTimes)

  predicate Matches(f: HistoryFilter, r: Rec) {
    f.Accepts(r.entity, r.times)
  }

  datatype SkipDecision = Skip | MustScan

  datatype Zone = Zone(min: int, max: int) {
    function Update(v: int): Zone {
      Zone(if v < min then v else min, if v > max then v else max)
    }
  }

  datatype EntityZone = EntityZone(min: EntityId, max: EntityId) {
    function Update(e: EntityId): EntityZone {
      EntityZone(if e.Less(min) then e else min, if max.Less(e) then e else max)
    }

    predicate Contains(e: EntityId) {
      !e.Less(min) && !max.Less(e)
    }
  }

  /** Smallest and largest ticks on one clock; other clocks are ignored. */
  datatype TimeZone = TimeZone(clock: int, min: int, max: int) {
    function Update(t: Timestamp): TimeZone {
      if t.clock != clock then this
      else TimeZone(clock, if t.ticks < min then t.ticks else min, if t.ticks > max then t.ticks else max)
    }

    predicate OverlapsRange(range: TimeRange) {
      clock != range.clock || (min < range.end && max >= range.start)
    }

    predicate CanContainKnown(cutoff: Timestamp) {
      clock != cutoff.clock || min <= cutoff.ticks
    }
  }

  function ZoneOf(t: Timestamp): TimeZone {
    TimeZone(t.clock, t.ticks, t.ticks)
  }

  /** The value of a block summary; `bloom` is the set of bits set in its filter. */
  datatype Summary = Summary(
    count: nat, sequences: Zone, valid: TimeZone, known: TimeZone,
    entities: EntityZone, bloom: set<nat>, schemas: set<nat>)
  {
    function Update(r: Rec): Summary
      requires r.entity.InRange()
    {
      Summary(count + 1, sequences.Update(r.sequence), valid.Update(r.times.valid), known.Update(r.times.known),
              entities.Update(r.entity), bloom + Positions(r.entity), schemas + SchemaBit(r.schema))
    }

    /** The block's decision. */
    predicate MayMatch(f: HistoryFilter)
      requires f.entity.Some? ==> f.entity.value.InRange()
    {
      && (f.entity.Some? ==> entities.Contains(f.entity.value) && Positions(f.entity.value) <= bloom)
      && (f.knownAsOf.Some? ==> known.CanContainKnown(f.knownAsOf.value))
      && TimeMayMatch(valid, known, f)
    }

    /** The block's decision for an inclusive range of sequences. */
    predicate SequencesMayMatch(start: int, end: int) {
      !(sequences.min > end || sequences.max < start)
    }
  }

  predicate TimeMayMatch(valid: TimeZone, known: TimeZone, f: HistoryFilter) {
    f.time.Some? ==>
      match f.time.value.0
      case Valid => valid.OverlapsRange(f.time.value.1)
      case Known => known.OverlapsRange(f.time.value.1)
      case Observed => true
  }

  /** Only schemas below 64 have a bit in the mask. */
  function SchemaBit(schema: nat): set<nat> {
    if schema < 64 then {schema} else {}
  }

  function First(r: Rec): Summary
    requires r.entity.InRange()
  {
    Summary(1, Zone(r.sequence, r.sequence), ZoneOf(r.times.valid), ZoneOf(r.times.known),
            EntityZone(r.entity, r.entity), Positions(r.entity), SchemaBit(r.schema))
  }

  ghost predicate InRange(block: seq<Rec>) {
    forall i :: 0 <= i < |block| ==> block[i].entity.InRange()
  }

  /** The summary of a non-empty block. */
  ghost function Summarize(block: seq<Rec>): Summary
    requires block != [] && InRange(block)
  {
    if |block| == 1 then First(block[0]) else Summarize(block[..|block| - 1]).Update(block[|block| - 1])
  }

  // ----- The entity order

  lemma LessTransitive(a: EntityId, b: EntityId, c: EntityId)
    ensures a.Less(b) && b.Less(c) ==> a.Less(c)
    ensures !a.Less(b) && !b.Less(c) ==> !a.Less(c)
    ensures !a.Less(a)
    ensures !a.Less(b) && !b.Less(a) ==> a == b
  {
  }

  // ----- What a block summary covers

  ghost predicate CoversTime(z: TimeZone, t: Timestamp) {
    t.clock == z.clock ==> z.min <= t.ticks <= z.max
  }

  ghost predicate Covers(s: Summary, r: Rec)
    requires r.entity.InRange()
  {
    && s.entities.Contains(r.entity)
    && Positions(r.entity) <= s.bloom
    && CoversTime(s.valid, r.times.valid)
    && CoversTime(s.known, r.times.known)
    && s.sequences.min <= r.sequence <= s.sequences.max
    && SchemaBit(r.schema) <= s.schemas
  }

  lemma UpdateCovers(s: Summary, old': Rec, r: Rec)
    requires old'.entity.InRange() && r.entity.InRange() && !s.entities.max.Less(s.entities.min)
    ensures Covers(s, old') ==> Covers(s.Update(r), old')
    ensures Covers(s.Update(r), r)
    ensures var t := s.Update(r); t.valid.clock == s.valid.clock && t.known.clock == s.known.clock
                                  && !t.entities.max.Less(t.entities.min) && t.count == s.count + 1
  {
    hide Positions;
    LessTransitive(old'.entity, s.entities.min, r.entity);
    LessTransitive(r.entity, s.entities.min, old'.entity);
    LessTransitive(old'.entity, r.entity, s.entities.min);
    LessTransitive(r.entity, s.entities.max, old'.entity);
    LessTransitive(s.entities.max, old'.entity, r.entity);
    LessTransitive(r.entity, old'.entity, s.entities.max);
    LessTransitive(r.entity, s.entities.min, s.entities.max);
    LessTransitive(s.entities.max, r.entity, s.entities.min);
    LessTransitive(s.entities.max, s.entities.min, r.entity);
    LessTransitive(r.entity, s.entities.max, s.entities.min);
    LessTransitive(s.entities.min, r.entity, s.entities.max);
  }

  lemma {:induction false} SummaryCovers(block: seq<Rec>)
    requires block != [] && InRange(block)
    ensures var s := Summarize(block);
            && !s.entities.max.Less(s.entities.min)
            && s.valid.clock == block[0].times.valid.clock && s.known.clock == block[0].times.known.clock
            && s.count == |block|
            && forall i :: 0 <= i < |block| ==> Covers(s, block[i])
  {
    hide Positions, Covers, Summary.Update;
    if |block| == 1 {
      FirstCovers(block[0]);
    } else {
      var init, last := block[..|block| - 1], block[|block| - 1];
      SummaryCovers(init);
      forall i | 0 <= i < |block|
        ensures Covers(Summarize(block), block[i])
      {
        UpdateCovers(Summarize(init), init[if i < |init| then i else 0], last);
        assert i < |init| ==> block[i] == init[i];
      }
      UpdateCovers(Summarize(init), init[0], last);
    }
  }

  lemma FirstCovers(r: Rec)
    requires r.entity.InRange()
    ensures Covers(First(r), r) && !First(r).entities.max.Less(First(r).entities.min)
  {
  }

  /** Every record of the block is known no earlier than the block's known-time minimum. */
  ghost predicate KnownAbove(z: TimeZone, block: seq<Rec>) {
    forall i :: 0 <= i < |block| ==> z.min <= block[i].times.known.ticks
  }

  ghost predicate BlockSafe(s: Summary, block: seq<Rec>) {
    forall f: HistoryFilter, i :: FilterInRange(f) && 0 <= i < |block| && Matches(f, block[i]) ==> s.MayMatch(f)
  }

  ghost predicate FilterInRange(f: HistoryFilter) {
    f.entity.Some? ==> f.entity.value.InRange()
  }

  lemma CoveredMayMatch(s: Summary, r: Rec, f: HistoryFilter)
    requires r.entity.InRange() && FilterInRange(f) && Covers(s, r) && s.known.min <= r.times.known.ticks
             && Matches(f, r)
    ensures s.MayMatch(f)
  {
    hide Positions;
  }

  /** The ends of the sequence range are sequences of records in the block, so it is no wider than needed. */
  lemma {:induction false} SummaryTight(block: seq<Rec>) returns (lo: nat, hi: nat)
    requires block != [] && InRange(block)
    ensures lo < |block| && hi < |block|
    ensures Summarize(block).sequences == Zone(block[lo].sequence, block[hi].sequence)
  {
    hide Positions;
    if |block| == 1 {
      return 0, 0;
    }
    var init, last := block[..|block| - 1], block[|block| - 1];
    lo, hi := SummaryTight(init);
    var z := Summarize(init).sequences;
    assert Summarize(block).sequences == z.Update(last.sequence);
    lo := if last.sequence < z.min then |init| else lo;
    hi := if last.sequence > z.max then |init| else hi;
  }

  /** The decision in terms of the records: a block is skipped exactly when all its sequences lie on one side of the
      range. */
  lemma SequencesExactly(block: seq<Rec>, start: int, end: int)
    requires block != [] && InRange(block)
    ensures !Summarize(block).SequencesMayMatch(start, end) <==> AllBefore(block, start) || AllAfter(block, end)
  {
    hide Positions, Summarize, Covers;
    var s := Summarize(block);
    SummaryCovers(block);
    var lo, hi := SummaryTight(block);
    forall i | 0 <= i < |block|
      ensures s.sequences.min <= block[i].sequence <= s.sequences.max
    {
      CoversSequence(s, block[i]);
    }
  }

  ghost predicate AllBefore(block: seq<Rec>, start: int) {
    forall i :: 0 <= i < |block| ==> block[i].sequence < start
  }

  ghost predicate AllAfter(block: seq<Rec>, end: int) {
    forall i :: 0 <= i < |block| ==> end < block[i].sequence
  }

  /** A block that holds a sequence of the range is scanned for it. */
  lemma SequencesSafe(block: seq<Rec>, start: int, end: int)
    requires block != [] && InRange(block)
    requires exists i :: 0 <= i < |block| && start <= block[i].sequence <= end
    ensures Summarize(block).SequencesMayMatch(start, end)
  {
    hide Positions, Summarize, Covers;
    SummaryCovers(block);
    var i :| 0 <= i < |block| && start <= block[i].sequence <= end;
    CoversSequence(Summarize(block), block[i]);
  }

  lemma CoversSequence(s: Summary, r: Rec)
    requires r.entity.InRange() && Covers(s, r)
    ensures s.sequences.min <= r.sequence <= s.sequences.max
  {
  }

  /** A block is never skipped wrongly, for any filter, exactly when no record is known earlier than the
      summary's minimum (which only looks at the first record's clock). */
  lemma BlockSafeExactly(block: seq<Rec>)
    requires block != [] && InRange(block)
    ensures BlockSafe(Summarize(block), block) <==> KnownAbove(Summarize(block).known, block)
  {
    hide Positions, Covers, Summarize;
    var s := Summarize(block);
    SummaryCovers(block);
    if KnownAbove(s.known, block) {
      forall f: HistoryFilter, i | FilterInRange(f) && 0 <= i < |block| && Matches(f, block[i])
        ensures s.MayMatch(f)
      {
        CoveredMayMatch(s, block[i], f);
      }
    } else {
      var i :| 0 <= i < |block| && s.known.min > block[i].times.known.ticks;
      var f := HistoryFilter(None, None, Some(Timestamp(s.known.clock, block[i].times.known.ticks)));
      assert FilterInRange(f) && Matches(f, block[i]) && !s.MayMatch(f);
    }
  }

  /** All records share one known-time clock, as every log guarantees. */
  ghost predicate OneKnownClock(block: seq<Rec>, clock: int) {
    forall i :: 0 <= i < |block| ==> block[i].times.known.clock == clock
  }

  lemma OneClockBlockSafe(block: seq<Rec>, clock: int)
    requires block != [] && InRange(block) && OneKnownClock(block, clock)
    ensures BlockSafe(Summarize(block), block)
  {
    hide Positions, Summarize;
    SummaryCovers(block);
    assert forall i :: 0 <= i < |block| ==> Covers(Summarize(block), block[i]);
    BlockSafeExactly(block);
  }

  // ----- Segments

  datatype SegmentSummary = SegmentSummary(
    sequences: Zone, valid: TimeZone, known: TimeZone, entities: EntityZone, total: nat)
  {
    predicate MayMatch(f: HistoryFilter) {
      && (f.entity.Some? ==> entities.Contains(f.entity.value))
      && (f.knownAsOf.Some? ==> known.CanContainKnown(f.knownAsOf.value))
      && TimeMayMatch(valid, known, f)
    }

    /** Takes in both ends of a block's ranges. */
    function Add(b: Summary): SegmentSummary {
      SegmentSummary(
        sequences.Update(b.sequences.min).Update(b.sequences.max),
        AddZone(valid, b.valid), AddZone(known, b.known),
        entities.Update(b.entities.min).Update(b.entities.max), total + b.count)
    }
  }

  function AddZone(z: TimeZone, b: TimeZone): TimeZone {
    z.Update(Timestamp(b.clock, b.min)).Update(Timestamp(b.clock, b.max))
  }

  /** Starts from the first block's ranges and adds every block, the first included. */
  function SegmentOf(blocks: seq<Summary>): SegmentSummary
    requires blocks != []
  {
    Added(SegmentSummary(blocks[0].sequences, blocks[0].valid, blocks[0].known, blocks[0].entities, 0), blocks)
  }

  function Added(s: SegmentSummary, blocks: seq<Summary>): SegmentSummary {
    if blocks == [] then s else Added(s, blocks[..|blocks| - 1]).Add(blocks[|blocks| - 1])
  }

  /** The loop that builds a segment summary. */
  method BuildSegment(blocks: seq<Summary>) returns (r: Result<SegmentSummary, string>)
    ensures r.Ok? <==> blocks != []
    ensures r.Ok? ==> r.value == SegmentOf(blocks)
  {
    if blocks == [] {
      return Err("cannot create segment summary from empty blocks");
    }
    var first := SegmentSummary(blocks[0].sequences, blocks[0].valid, blocks[0].known, blocks[0].entities, 0);
    var s := first;
    for i := 0 to |blocks|
      invariant s == Added(first, blocks[..i])
    {
      assert blocks[..i + 1][..i] == blocks[..i];
      s := s.Add(blocks[i]);
    }
    assert blocks[..|blocks|] == blocks;
    r := Ok(s);
  }

  /** The block's range on the segment's clock is inside the segment's. */
  ghost predicate CoversZone(z: TimeZone, b: TimeZone) {
    b.clock == z.clock ==> z.min <= b.min && b.max <= z.max
  }

  ghost predicate CoversBlock(s: SegmentSummary, b: Summary) {
    && CoversZone(s.valid, b.valid) && CoversZone(s.known, b.known)
    && !b.entities.min.Less(s.entities.min) && !s.entities.max.Less(b.entities.max)
  }

  lemma AddCovers(s: SegmentSummary, b: Summary, c: Summary)
    requires !b.entities.max.Less(b.entities.min) && !c.entities.max.Less(c.entities.min)
    requires !s.entities.max.Less(s.entities.min)
    ensures CoversBlock(s, c) ==> CoversBlock(s.Add(b), c)
    ensures CoversBlock(s.Add(b), b)
    ensures var t := s.Add(b);
            t.valid.clock == s.valid.clock && t.known.clock == s.known.clock && !t.entities.max.Less(t.entities.min)
  {
    EntityAdd(s.entities, b.entities.min, c.entities);
    EntityAdd(s.entities.Update(b.entities.min), b.entities.max, c.entities);
    EntityAdd(s.entities.Update(b.entities.min), b.entities.max, EntityZone(b.entities.min, b.entities.min));
  }

  lemma EntityAdd(z: EntityZone, e: EntityId, c: EntityZone)
    requires !z.max.Less(z.min)
    ensures var t := z.Update(e);
            && !t.max.Less(t.min)
            && !e.Less(t.min) && !t.max.Less(e)
            && (!c.min.Less(z.min) ==> !c.min.Less(t.min))
            && (!z.max.Less(c.max) ==> !t.max.Less(c.max))
  {
    LessTransitive(c.min, z.min, e);
    LessTransitive(c.min, e, z.min);
    LessTransitive(e, z.max, c.max);
    LessTransitive(z.max, e, c.max);
    LessTransitive(z.max, c.max, e);
    LessTransitive(e, z.min, z.max);
    LessTransitive(z.max, z.min, e);
    LessTransitive(e, z.max, z.min);
    LessTransitive(e, e, e);
  }

  lemma {:induction false} AddedCovers(s: SegmentSummary, blocks: seq<Summary>)
    requires !s.entities.max.Less(s.entities.min)
    requires forall i :: 0 <= i < |blocks| ==> !blocks[i].entities.max.Less(blocks[i].entities.min)
    ensures var t := Added(s, blocks);
            && t.valid.clock == s.valid.clock && t.known.clock == s.known.clock && !t.entities.max.Less(t.entities.min)
            && forall i :: 0 <= i < |blocks| ==> CoversBlock(t, blocks[i])
  {
    hide CoversBlock, SegmentSummary.Add;
    if blocks != [] {
      var init, last := blocks[..|blocks| - 1], blocks[|blocks| - 1];
      AddedCovers(s, init);
      AddCovers(Added(s, init), last, last);
      forall i | 0 <= i < |init|
        ensures CoversBlock(Added(s, blocks), blocks[i])
      {
        assert blocks[i] == init[i];
        AddCovers(Added(s, init), last, init[i]);
      }
    }
  }

  ghost function RecordCount(blocks: seq<seq<Rec>>): nat {
    if blocks == [] then 0 else RecordCount(blocks[..|blocks| - 1]) + |blocks[|blocks| - 1]|
  }

  /** The segment counts every record of every block. */
  lemma {:induction false} SegmentCounts(s: SegmentSummary, blocks: seq<seq<Rec>>)
    requires WellFormed(blocks)
    ensures Added(s, Summaries(blocks)).total == s.total + RecordCount(blocks)
  {
    hide Summarize, Positions;
    if blocks != [] {
      var init, last := blocks[..|blocks| - 1], blocks[|blocks| - 1];
      var sums := Summaries(blocks);
      assert sums[..|sums| - 1] == Summaries(init);
      SegmentCounts(s, init);
      SummaryCovers(last);
    }
  }

  ghost predicate WellFormed(blocks: seq<seq<Rec>>) {
    forall i :: 0 <= i < |blocks| ==> blocks[i] != [] && InRange(blocks[i])
  }

  ghost function Summaries(blocks: seq<seq<Rec>>): (sums: seq<Summary>)
    requires WellFormed(blocks)
    ensures |sums| == |blocks|
  {
    seq(|blocks|, i requires 0 <= i < |blocks| => Summarize(blocks[i]))
  }

  /** What the segment's ranges must say about a record for no filter to lose it. */
  ghost predicate Respects(s: SegmentSummary, r: Rec) {
    && CoversTime(s.valid, r.times.valid)
    && CoversTime(s.known, r.times.known)
    && s.known.min <= r.times.known.ticks
  }

  ghost predicate Holds(blocks: seq<seq<Rec>>, r: Rec) {
    exists b :: 0 <= b < |blocks| && r in blocks[b]
  }

  ghost predicate SegmentSafe(s: SegmentSummary, blocks: seq<seq<Rec>>) {
    forall f: HistoryFilter, r: Rec :: Holds(blocks, r) && Matches(f, r) ==> s.MayMatch(f)
  }

  lemma SegmentCoversEntity(blocks: seq<seq<Rec>>, r: Rec)
    requires blocks != [] && WellFormed(blocks) && Holds(blocks, r)
    ensures SegmentOf(Summaries(blocks)).entities.Contains(r.entity)
  {
    hide Summarize, Positions, Added;
    var sums := Summaries(blocks);
    forall i | 0 <= i < |blocks|
      ensures !sums[i].entities.max.Less(sums[i].entities.min)
    {
      SummaryCovers(blocks[i]);
    }
    AddedCovers(SegmentSummary(sums[0].sequences, sums[0].valid, sums[0].known, sums[0].entities, 0), sums);
    var b :| 0 <= b < |blocks| && r in blocks[b];
    SummaryCovers(blocks[b]);
    var i :| 0 <= i < |blocks[b]| && blocks[b][i] == r;
    var t := SegmentOf(sums);
    assert CoversBlock(t, sums[b]) && Covers(sums[b], blocks[b][i]);
    LessTransitive(r.entity, sums[b].entities.min, t.entities.min);
    LessTransitive(t.entities.max, sums[b].entities.max, r.entity);
  }

  /** No filter makes the segment lose a record exactly when each record that shares the segment's valid or
      known clock lies within that range, and none is known earlier than the known-time minimum. */
  lemma SegmentSafeExactly(blocks: seq<seq<Rec>>)
    requires blocks != [] && WellFormed(blocks)
    ensures SegmentSafe(SegmentOf(Summaries(blocks)), blocks)
       <==> forall r: Rec :: Holds(blocks, r) ==> Respects(SegmentOf(Summaries(blocks)), r)
  {
    hide SegmentOf, Summaries, Holds;
    var s := SegmentOf(Summaries(blocks));
    if SegmentSafe(s, blocks) {
      forall r: Rec | Holds(blocks, r)
        ensures Respects(s, r)
      {
        SafeRespects(s, blocks, r);
      }
    } else {
      var f: HistoryFilter, r: Rec :| Holds(blocks, r) && Matches(f, r) && !s.MayMatch(f);
      SegmentCoversEntity(blocks, r);
      assert !Respects(s, r);
    }
  }

  lemma SafeRespects(s: SegmentSummary, blocks: seq<seq<Rec>>, r: Rec)
    requires SegmentSafe(s, blocks) && Holds(blocks, r)
    ensures Respects(s, r)
  {
    hide Holds;
    var v, k := r.times.valid, r.times.known;
    var onValid := HistoryFilter(None, Some((Valid, TimeRange(v.clock, v.ticks, v.ticks + 1))), None);
    var onKnown := HistoryFilter(None, Some((Known, TimeRange(k.clock, k.ticks, k.ticks + 1))), None);
    var asOf := HistoryFilter(None, None, Some(Timestamp(s.known.clock, k.ticks)));
    assert Matches(onValid, r) && Matches(onKnown, r) && Matches(asOf, r);
  }

  ghost predicate OneValidClock(block: seq<Rec>) {
    forall i :: 0 <= i < |block| ==> block[i].times.valid.clock == block[0].times.valid.clock
  }

  /** One known clock throughout and one valid clock in each block: no segment loses a record. */
  lemma OneClockSegmentSafe(blocks: seq<seq<Rec>>, clock: int)
    requires blocks != [] && WellFormed(blocks)
    requires forall b :: 0 <= b < |blocks| ==> OneKnownClock(blocks[b], clock) && OneValidClock(blocks[b])
    ensures SegmentSafe(SegmentOf(Summaries(blocks)), blocks)
  {
    hide Summarize, SegmentOf, Positions;
    var s := SegmentOf(Summaries(blocks));
    forall r: Rec | Holds(blocks, r)
      ensures Respects(s, r)
    {
      var b :| 0 <= b < |blocks| && r in blocks[b];
      BlockRespects(blocks, b, r, clock);
    }
    SegmentSafeExactly(blocks);
  }

  lemma BlockRespects(blocks: seq<seq<Rec>>, b: nat, r: Rec, clock: int)
    requires blocks != [] && WellFormed(blocks) && b < |blocks| && r in blocks[b]
    requires OneKnownClock(blocks[0], clock) && OneKnownClock(blocks[b], clock) && OneValidClock(blocks[b])
    ensures Respects(SegmentOf(Summaries(blocks)), r)
  {
    hide Summarize, Positions, Added;
    var sums := Summaries(blocks);
    forall i | 0 <= i < |blocks|
      ensures !sums[i].entities.max.Less(sums[i].entities.min)
    {
      SummaryCovers(blocks[i]);
    }
    AddedCovers(SegmentSummary(sums[0].sequences, sums[0].valid, sums[0].known, sums[0].entities, 0), sums);
    SummaryCovers(blocks[0]);
    SummaryCovers(blocks[b]);
    var i :| 0 <= i < |blocks[b]| && blocks[b][i] == r;
    assert CoversBlock(SegmentOf(sums), sums[b]) && Covers(sums[b], blocks[b][i]);
  }

  /** Two valid clocks inside one block: the segment skips a record that the filter selects. */
  lemma MixedValidClocksLose() returns (blocks: seq<seq<Rec>>, f: HistoryFilter, r: Rec)
    ensures blocks != [] && WellFormed(blocks) && forall b :: 0 <= b < |blocks| ==> OneKnownClock(blocks[b], 1)
    ensures Holds(blocks, r) && Matches(f, r) && !SegmentOf(Summaries(blocks)).MayMatch(f)
  {
    hide Positions;
    var e := EntityId(0, 0, 0);
    var at := Timestamp(1, 0);
    var r0 := Rec(0, e, 0, EventTimes(Timestamp(1, 5), None, at));
    var r1 := Rec(1, e, 0, EventTimes(Timestamp(2, 5), None, at));
    r := Rec(2, e, 0, EventTimes(Timestamp(1, 9), None, at));
    f := HistoryFilter(None, Some((Valid, TimeRange(1, 9, 10))), None);
    blocks := [[r0], [r1, r]];
    assert blocks[1][1] == r;
    assert Summarize(blocks[0]) == First(r0);
    assert Summarize(blocks[1]) == First(r1).Update(r) by {
      assert blocks[1][..1] == [r1];
    }
    MixedSegment(First(r0), First(r1).Update(r));
    assert Summaries(blocks) == [First(r0), First(r1).Update(r)];
  }

  lemma MixedSegment(a: Summary, b: Summary)
    requires a.valid == TimeZone(1, 5, 5) && b.valid.clock == 2
    ensures SegmentOf([a, b]).valid == TimeZone(1, 5, 5)
  {
    var first := SegmentSummary(a.sequences, a.valid, a.known, a.entities, 0);
    assert [a, b][..1] == [a];
    assert Added(first, [a]) == Added(first, []).Add(a) by {
      assert [a][..0] == [];
    }
    assert Added(first, [a, b]) == Added(first, [a]).Add(b);
  }

  // ----- The object that summarises a block as its records arrive

  class BlockSummary {
    var count: nat
    var sequences: Zone
    var valid: TimeZone
    var known: TimeZone
    var entities: EntityZone
    const bloom: EntityBloomFilter
    var schemas: set<nat>

    ghost predicate Ready() {
      bloom.Valid()
    }

    ghost function Value(): Summary
      reads this, bloom.bits
      requires Ready()
    {
      Summary(count, sequences, valid, known, entities, bloom.Members(), schemas)
    }

    constructor (r: Rec)
      requires r.entity.InRange()
      ensures Ready() && fresh(bloom) && fresh(bloom.bits)
      ensures Value() == Summarize([r])
    {
      var filter := new EntityBloomFilter();
      filter.Insert(r.entity);
      count, sequences, schemas := 1, Zone(r.sequence, r.sequence), SchemaBit(r.schema);
      valid, known, entities := ZoneOf(r.times.valid), ZoneOf(r.times.known), EntityZone(r.entity, r.entity);
      bloom := filter;
    }

    /** Extends the summary of the block seen so far with one more record. */
    method Update(r: Rec, ghost block: seq<Rec>)
      requires Ready() && r.entity.InRange()
      requires block != [] && InRange(block) && Value() == Summarize(block)
      modifies this, bloom.bits
      ensures Value() == Summarize(block + [r])
    {
      assert (block + [r])[..|block|] == block;
      count := count + 1;
      sequences := sequences.Update(r.sequence);
      valid := valid.Update(r.times.valid);
      known := known.Update(r.times.known);
      entities := entities.Update(r.entity);
      bloom.Insert(r.entity);
      schemas := schemas + SchemaBit(r.schema);
    }

    /** Skipped exactly when every record of the block lies before the range, or every record lies after it. */
    method MatchesSequenceRange(start: int, end: int, ghost block: seq<Rec>) returns (d: SkipDecision)
      requires Ready() && block != [] && InRange(block) && Value() == Summarize(block)
      ensures d == Skip <==> AllBefore(block, start) || AllAfter(block, end)
      ensures d == Skip ==> forall i :: 0 <= i < |block| ==> !(start <= block[i].sequence <= end)
    {
      hide Summarize;
      SequencesExactly(block, start, end);
      d := if sequences.min > end || sequences.max < start then Skip else MustScan;
    }

    method MatchesFilter(f: HistoryFilter) returns (d: SkipDecision)
      requires Ready() && FilterInRange(f)
      ensures d == MustScan <==> Value().MayMatch(f)
    {
      if f.entity.Some? {
        if !entities.Contains(f.entity.value) {
          return Skip;
        }
        var may := bloom.MayContain(f.entity.value);
        if !may {
          return Skip;
        }
      }
      if f.knownAsOf.Some? && !known.CanContainKnown(f.knownAsOf.value) {
        return Skip;
      }
      if !TimeMayMatch(valid, known, f) {
        return Skip;
      }
      d := MustScan;
    }
  }
}
