/** Exactly which blocks and segments are skipped, in terms of what they hold. */
module PruneExact {
  import opened Core
  import opened Bloom
  import opened Pruning

  // ----- The ends of a block's ranges belong to its records

  lemma {:induction false} EntityEnds(block: seq<Rec>) returns (lo: nat, hi: nat)
    requires block != [] && InRange(block)
    ensures lo < |block| && hi < |block|
    ensures Summarize(block).entities == EntityZone(block[lo].entity, block[hi].entity)
  {
    hide Positions;
    if |block| == 1 {
      return 0, 0;
    }
    var init, last := block[..|block| - 1], block[|block| - 1];
    lo, hi := EntityEnds(init);
    var z := Summarize(init).entities;
    assert Summarize(block).entities == z.Update(last.entity);
    lo, hi := if last.entity.Less(z.min) then |init| else lo, if z.max.Less(last.entity) then |init| else hi;
  }

  /** The time of a record that a time range of the block looks at. */
  function TimeOf(r: Rec, known: bool): Timestamp {
    if known then r.times.known else r.times.valid
  }

  function ZoneIn(s: Summary, known: bool): TimeZone {
    if known then s.known else s.valid
  }

  lemma {:induction false} TimeEnds(block: seq<Rec>, known: bool) returns (lo: nat, hi: nat)
    requires block != [] && InRange(block)
    ensures lo < |block| && hi < |block|
    ensures var clock := TimeOf(block[0], known).clock;
            && TimeOf(block[lo], known).clock == clock && TimeOf(block[hi], known).clock == clock
            && ZoneIn(Summarize(block), known) ==
               TimeZone(clock, TimeOf(block[lo], known).ticks, TimeOf(block[hi], known).ticks)
  {
    hide Positions;
    if |block| == 1 {
      return 0, 0;
    }
    var init, last := block[..|block| - 1], block[|block| - 1];
    lo, hi := TimeEnds(init, known);
    var z, t := ZoneIn(Summarize(init), known), TimeOf(last, known);
    assert ZoneIn(Summarize(block), known) == z.Update(t);
    if t.clock == z.clock {
      lo, hi := if t.ticks < z.min then |init| else lo, if t.ticks > z.max then |init| else hi;
    }
  }

  lemma {:induction false} BloomIs(block: seq<Rec>, k: nat)
    requires block != [] && InRange(block)
    ensures k in Summarize(block).bloom <==> exists i :: 0 <= i < |block| && k in Positions(block[i].entity)
  {
    hide Positions;
    var last := block[|block| - 1];
    if |block| > 1 {
      var init := block[..|block| - 1];
      BloomIs(init, k);
      assert Summarize(block).bloom == Summarize(init).bloom + Positions(last.entity);
      assert forall i :: 0 <= i < |init| ==> block[i] == init[i];
    }
  }

  // ----- When a block is skipped

  /** All entities of the block lie on one side of the asked one, or one of its four bits is set by none of them. */
  ghost predicate EntityMissed(block: seq<Rec>, e: EntityId)
    requires InRange(block) && e.InRange()
  {
    || (forall i :: 0 <= i < |block| ==> block[i].entity.Less(e))
    || (forall i :: 0 <= i < |block| ==> e.Less(block[i].entity))
    || exists k :: k in Positions(e) && !exists i :: 0 <= i < |block| && k in Positions(block[i].entity)
  }

  /** The cut-off is on the first record's known clock, and the records on that clock were all known later. */
  ghost predicate CutOffMissed(block: seq<Rec>, cutoff: Timestamp)
    requires block != []
  {
    && cutoff.clock == block[0].times.known.clock
    && forall i :: 0 <= i < |block| && block[i].times.known.clock == cutoff.clock ==>
         cutoff.ticks < block[i].times.known.ticks
  }

  /** The range is on the first record's clock, and the records on that clock all lie before it, or all after it. */
  ghost predicate RangeMissed(block: seq<Rec>, known: bool, range: TimeRange)
    requires block != []
  {
    && range.clock == TimeOf(block[0], known).clock
    && (|| (forall i :: 0 <= i < |block| && TimeOf(block[i], known).clock == range.clock ==>
              range.end <= TimeOf(block[i], known).ticks)
        || (forall i :: 0 <= i < |block| && TimeOf(block[i], known).clock == range.clock ==>
              TimeOf(block[i], known).ticks < range.start))
  }

  lemma EntityMissedExactly(block: seq<Rec>, e: EntityId)
    requires block != [] && InRange(block) && e.InRange()
    ensures var s := Summarize(block);
            EntityMissed(block, e) <==> !(s.entities.Contains(e) && Positions(e) <= s.bloom)
  {
    hide Positions, Summarize;
    var s := Summarize(block);
    var lo, hi := EntityEnds(block);
    SummaryCovers(block);
    forall i | 0 <= i < |block|
      ensures !block[i].entity.Less(s.entities.min) && !s.entities.max.Less(block[i].entity)
    {
      CoversEntity(s, block[i]);
      LessTransitive(block[i].entity, s.entities.min, e);
    }
    forall i | 0 <= i < |block|
      ensures e.Less(s.entities.min) ==> e.Less(block[i].entity)
      ensures s.entities.max.Less(e) ==> block[i].entity.Less(e)
    {
      LessTransitive(e, block[i].entity, s.entities.min);
      LessTransitive(s.entities.max, block[i].entity, e);
    }
    assert e.Less(s.entities.min) <==> forall i :: 0 <= i < |block| ==> e.Less(block[i].entity);
    assert s.entities.max.Less(e) <==> forall i :: 0 <= i < |block| ==> block[i].entity.Less(e);
    forall k
      ensures k in s.bloom <==> exists i :: 0 <= i < |block| && k in Positions(block[i].entity)
    {
      BloomIs(block, k);
    }
  }

  lemma CoversEntity(s: Summary, r: Rec)
    requires r.entity.InRange() && Covers(s, r)
    ensures !r.entity.Less(s.entities.min) && !s.entities.max.Less(r.entity)
  {
    hide Positions;
  }

  lemma CoversTimes(s: Summary, r: Rec, known: bool)
    requires r.entity.InRange() && Covers(s, r)
    ensures CoversTime(ZoneIn(s, known), TimeOf(r, known))
  {
    hide Positions;
  }

  lemma CutOffMissedExactly(block: seq<Rec>, cutoff: Timestamp)
    requires block != [] && InRange(block)
    ensures CutOffMissed(block, cutoff) <==> !Summarize(block).known.CanContainKnown(cutoff)
  {
    hide Positions, Summarize, Covers;
    var s := Summarize(block);
    var lo, hi := TimeEnds(block, true);
    SummaryCovers(block);
    forall i | 0 <= i < |block|
      ensures CoversTime(s.known, block[i].times.known)
    {
      CoversTimes(s, block[i], true);
    }
  }

  lemma RangeMissedExactly(block: seq<Rec>, known: bool, range: TimeRange)
    requires block != [] && InRange(block)
    ensures RangeMissed(block, known, range) <==> !ZoneIn(Summarize(block), known).OverlapsRange(range)
  {
    hide Positions, Summarize, Covers;
    var s := Summarize(block);
    var lo, hi := TimeEnds(block, known);
    SummaryCovers(block);
    forall i | 0 <= i < |block|
      ensures CoversTime(ZoneIn(s, known), TimeOf(block[i], known))
    {
      CoversTimes(s, block[i], known);
    }
  }

  /** A block is skipped exactly when its records miss the asked entity, the cut-off, or the range on the valid or
      known axis; a range of observed times skips nothing. */
  lemma BlockSkippedExactly(block: seq<Rec>, f: HistoryFilter)
    requires block != [] && InRange(block) && FilterInRange(f)
    ensures !Summarize(block).MayMatch(f) <==>
            || (f.entity.Some? && EntityMissed(block, f.entity.value))
            || (f.knownAsOf.Some? && CutOffMissed(block, f.knownAsOf.value))
            || (f.time.Some? && f.time.value.0 == Valid && RangeMissed(block, false, f.time.value.1))
            || (f.time.Some? && f.time.value.0 == Known && RangeMissed(block, true, f.time.value.1))
  {
    hide Positions, Summarize, EntityMissed, CutOffMissed, RangeMissed;
    if f.entity.Some? {
      EntityMissedExactly(block, f.entity.value);
    }
    if f.knownAsOf.Some? {
      CutOffMissedExactly(block, f.knownAsOf.value);
    }
    if f.time.Some? {
      RangeMissedExactly(block, false, f.time.value.1);
      RangeMissedExactly(block, true, f.time.value.1);
    }
  }

  // ----- When a segment is skipped

  ghost predicate Proper(blocks: seq<Summary>) {
    forall i :: 0 <= i < |blocks| ==>
      && !blocks[i].entities.max.Less(blocks[i].entities.min)
      && blocks[i].valid.min <= blocks[i].valid.max && blocks[i].known.min <= blocks[i].known.max
  }

  ghost predicate EntitiesReach(z: EntityZone, blocks: seq<Summary>) {
    && (exists i :: 0 <= i < |blocks| && z.min == blocks[i].entities.min)
    && (exists i :: 0 <= i < |blocks| && z.max == blocks[i].entities.max)
  }

  /** Both ends of the range are ends of blocks on its clock. */
  ghost predicate TimesReach(z: TimeZone, blocks: seq<Summary>, known: bool) {
    && (exists i :: 0 <= i < |blocks| && ZoneIn(blocks[i], known).clock == z.clock
                    && z.min == ZoneIn(blocks[i], known).min)
    && (exists i :: 0 <= i < |blocks| && ZoneIn(blocks[i], known).clock == z.clock
                    && z.max == ZoneIn(blocks[i], known).max)
  }

  function SegmentZone(s: SegmentSummary, known: bool): TimeZone {
    if known then s.known else s.valid
  }

  lemma {:induction false} EntitiesEnd(first: SegmentSummary, blocks: seq<Summary>, all: seq<Summary>)
    requires Proper(all) && blocks <= all && EntitiesReach(first.entities, all)
    requires !first.entities.max.Less(first.entities.min)
    ensures EntitiesReach(Added(first, blocks).entities, all)
    ensures !Added(first, blocks).entities.max.Less(Added(first, blocks).entities.min)
  {
    if blocks != [] {
      var init, n := blocks[..|blocks| - 1], |blocks| - 1;
      EntitiesEnd(first, init, all);
      var z, b := Added(first, init).entities, all[n].entities;
      assert blocks[n] == all[n] && Added(first, blocks).entities == z.Update(b.min).Update(b.max);
      OneBlockMore(z, b);
      LessTransitive(b.max, b.min, z.min);
    }
  }

  /** Taking in a block's range moves each end to an end of the same side, or leaves it. */
  lemma OneBlockMore(z: EntityZone, b: EntityZone)
    requires !z.max.Less(z.min) && !b.max.Less(b.min)
    ensures var t := z.Update(b.min).Update(b.max);
            && (t.min == z.min || t.min == b.min) && (t.max == z.max || t.max == b.max) && !t.max.Less(t.min)
  {
    LessTransitive(b.max, b.min, z.min);
    LessTransitive(z.min, b.min, b.max);
    LessTransitive(z.max, b.min, b.max);
    LessTransitive(b.max, z.max, b.min);
    LessTransitive(b.min, z.max, b.max);
    LessTransitive(z.max, z.min, b.min);
    LessTransitive(b.max, z.max, z.min);
    LessTransitive(z.max, b.max, b.min);
    LessTransitive(z.max, b.min, z.min);
    LessTransitive(b.max, z.min, b.min);
    LessTransitive(z.max, b.max, z.min);
  }

  lemma {:induction false} TimesEnd(first: SegmentSummary, blocks: seq<Summary>, all: seq<Summary>, known: bool)
    requires Proper(all) && blocks <= all && TimesReach(SegmentZone(first, known), all, known)
    ensures TimesReach(SegmentZone(Added(first, blocks), known), all, known)
    ensures SegmentZone(Added(first, blocks), known).clock == SegmentZone(first, known).clock
  {
    if blocks != [] {
      var init, n := blocks[..|blocks| - 1], |blocks| - 1;
      TimesEnd(first, init, all, known);
      assert blocks[n] == all[n];
      assert ZoneIn(all[n], known).min <= ZoneIn(all[n], known).max;
    }
  }

  /** A segment is skipped exactly when all its blocks' ranges lie on one side of the asked entity, or on its first
      block's clock beyond the cut-off, or on one side of the asked range. */
  lemma SegmentSkippedExactly(blocks: seq<Summary>, f: HistoryFilter)
    requires blocks != [] && Proper(blocks)
    ensures !SegmentOf(blocks).MayMatch(f) <==>
            || (f.entity.Some? && EntityOutside(blocks, f.entity.value))
            || (f.knownAsOf.Some? && CutOffOutside(blocks, f.knownAsOf.value))
            || (f.time.Some? && f.time.value.0 == Valid && RangeOutside(blocks, false, f.time.value.1))
            || (f.time.Some? && f.time.value.0 == Known && RangeOutside(blocks, true, f.time.value.1))
  {
    hide Added, EntityOutside, CutOffOutside, RangeOutside;
    if f.entity.Some? {
      EntityOutsideExactly(blocks, f.entity.value);
    }
    if f.knownAsOf.Some? {
      CutOffOutsideExactly(blocks, f.knownAsOf.value);
    }
    if f.time.Some? {
      RangeOutsideExactly(blocks, false, f.time.value.1);
      RangeOutsideExactly(blocks, true, f.time.value.1);
    }
  }

  ghost predicate EntityOutside(blocks: seq<Summary>, e: EntityId) {
    || (forall i :: 0 <= i < |blocks| ==> e.Less(blocks[i].entities.min))
    || (forall i :: 0 <= i < |blocks| ==> blocks[i].entities.max.Less(e))
  }

  ghost predicate CutOffOutside(blocks: seq<Summary>, cutoff: Timestamp)
    requires blocks != []
  {
    && cutoff.clock == blocks[0].known.clock
    && forall i :: 0 <= i < |blocks| && blocks[i].known.clock == cutoff.clock ==> cutoff.ticks < blocks[i].known.min
  }

  ghost predicate RangeOutside(blocks: seq<Summary>, known: bool, range: TimeRange)
    requires blocks != []
  {
    && range.clock == ZoneIn(blocks[0], known).clock
    && (|| (forall i :: 0 <= i < |blocks| && ZoneIn(blocks[i], known).clock == range.clock ==>
              range.end <= ZoneIn(blocks[i], known).min)
        || (forall i :: 0 <= i < |blocks| && ZoneIn(blocks[i], known).clock == range.clock ==>
              ZoneIn(blocks[i], known).max < range.start))
  }

  lemma SegmentReaches(blocks: seq<Summary>)
    requires blocks != [] && Proper(blocks)
    ensures var s := SegmentOf(blocks);
            && EntitiesReach(s.entities, blocks)
            && TimesReach(s.valid, blocks, false) && TimesReach(s.known, blocks, true)
            && s.valid.clock == blocks[0].valid.clock && s.known.clock == blocks[0].known.clock
            && forall i :: 0 <= i < |blocks| ==> CoversBlock(s, blocks[i])
  {
    hide Added;
    var first := SegmentSummary(blocks[0].sequences, blocks[0].valid, blocks[0].known, blocks[0].entities, 0);
    assert ZoneIn(blocks[0], false) == first.valid && ZoneIn(blocks[0], true) == first.known;
    EntitiesEnd(first, blocks, blocks);
    TimesEnd(first, blocks, blocks, false);
    TimesEnd(first, blocks, blocks, true);
    AddedCovers(first, blocks);
  }

  lemma EntityOutsideExactly(blocks: seq<Summary>, e: EntityId)
    requires blocks != [] && Proper(blocks)
    ensures EntityOutside(blocks, e) <==> !SegmentOf(blocks).entities.Contains(e)
  {
    hide SegmentOf, TimesReach;
    SegmentReaches(blocks);
    var z := SegmentOf(blocks).entities;
    forall i | 0 <= i < |blocks|
      ensures e.Less(z.min) ==> e.Less(blocks[i].entities.min)
      ensures z.max.Less(e) ==> blocks[i].entities.max.Less(e)
    {
      assert CoversBlock(SegmentOf(blocks), blocks[i]);
      LessTransitive(e, blocks[i].entities.min, z.min);
      LessTransitive(z.max, blocks[i].entities.max, e);
    }
  }

  lemma CutOffOutsideExactly(blocks: seq<Summary>, cutoff: Timestamp)
    requires blocks != [] && Proper(blocks)
    ensures CutOffOutside(blocks, cutoff) <==> !SegmentOf(blocks).known.CanContainKnown(cutoff)
  {
    hide SegmentOf, EntitiesReach;
    SegmentReaches(blocks);
    var s := SegmentOf(blocks);
    assert forall i :: 0 <= i < |blocks| ==> CoversBlock(s, blocks[i]);
    var i :| 0 <= i < |blocks| && ZoneIn(blocks[i], true).clock == s.known.clock
             && s.known.min == ZoneIn(blocks[i], true).min;
    assert blocks[i].known.min == s.known.min;
  }

  lemma RangeOutsideExactly(blocks: seq<Summary>, known: bool, range: TimeRange)
    requires blocks != [] && Proper(blocks)
    ensures RangeOutside(blocks, known, range) <==> !SegmentZone(SegmentOf(blocks), known).OverlapsRange(range)
  {
    hide SegmentOf, EntitiesReach;
    SegmentReaches(blocks);
    var s := SegmentOf(blocks);
    var z := SegmentZone(s, known);
    forall i | 0 <= i < |blocks|
      ensures CoversZone(z, ZoneIn(blocks[i], known))
    {
      assert CoversBlock(s, blocks[i]);
    }
    var i :| 0 <= i < |blocks| && ZoneIn(blocks[i], known).clock == z.clock && z.min == ZoneIn(blocks[i], known).min;
    var j :| 0 <= j < |blocks| && ZoneIn(blocks[j], known).clock == z.clock && z.max == ZoneIn(blocks[j], known).max;
  }

  // ----- The schemas of a block

  /** The mask holds exactly the schemas below 64 that occur in the block. */
  lemma {:induction false} SchemasExactly(block: seq<Rec>, k: nat)
    requires block != [] && InRange(block)
    ensures k in Summarize(block).schemas <==> k < 64 && exists i :: 0 <= i < |block| && block[i].schema == k
  {
    hide Positions;
    var last := block[|block| - 1];
    if |block| > 1 {
      var init := block[..|block| - 1];
      SchemasExactly(init, k);
      assert Summarize(block).schemas == Summarize(init).schemas + SchemaBit(last.schema);
      assert forall i :: 0 <= i < |init| ==> block[i] == init[i];
    }
  }
}
