/** What the in-memory log admits and what its history pages hold, in terms of the events' own fields. */
module EventPages {
  import opened Core
  import opened EventLog

  // ----- Admission

  /** The known time before input `i`: that of the input before it, or of the last event. */
  function Before<T>(events: seq<Event<T>>, batch: seq<Input<T>>, i: nat): Option<Timestamp>
    requires i < |batch|
  {
    if i > 0 then Some(batch[i - 1].times.known)
    else if events != [] then Some(events[|events| - 1].times.known)
    else None
  }

  /** Input `i` is on the clock before it and not earlier. */
  predicate Follows<T>(events: seq<Event<T>>, batch: seq<Input<T>>, i: nat)
    requires i < |batch|
  {
    var before, now := Before(events, batch, i), batch[i].times.known;
    before.Some? ==> before.value.clock == now.clock && before.value.ticks <= now.ticks
  }

  /** Which batches are admitted, and which error the others get: an empty batch first, then one that does not fit,
      then the first input on another clock or with an earlier known time. */
  lemma AdmittedExactly<T>(capacity: int, events: seq<Event<T>>, batch: seq<Input<T>>)
    ensures var r := Refusal(capacity, events, batch);
            && (r.None? <==> && batch != [] && |events| + |batch| <= capacity
                             && forall i :: 0 <= i < |batch| ==> Follows(events, batch, i))
            && (batch == [] ==> r == Some(EmptyBatch))
            && (batch != [] && |events| + |batch| > capacity ==>
                  r == Some(CapacityExceeded(capacity - |events|, |batch|)))
            && (batch != [] && |events| + |batch| <= capacity && r.Some? ==>
                  exists i :: FirstOffender(events, batch, i, r.value))
  {
    hide CheckBatch;
    if batch != [] && |events| + |batch| <= capacity {
      CheckedExactly(events, batch, 0);
      assert batch[0..] == batch;
    }
  }

  ghost predicate FirstOffender<T>(events: seq<Event<T>>, batch: seq<Input<T>>, i: int, e: EventError) {
    && 0 <= i < |batch| && !Follows(events, batch, i) && (forall j :: 0 <= j < i ==> Follows(events, batch, j))
    && var before, now := Before(events, batch, i).value, batch[i].times.known;
       e == if before.clock != now.clock then KnownClockMismatch(before.clock, now.clock)
            else KnownTimeRegression(before.ticks, now.ticks)
  }

  lemma {:induction false} CheckedExactly<T>(events: seq<Event<T>>, batch: seq<Input<T>>, i: nat)
    requires i <= |batch| && forall j :: 0 <= j < i ==> Follows(events, batch, j)
    ensures var r := CheckBatch(if i < |batch| then Before(events, batch, i) else None, batch[i..]);
            && (r.None? <==> forall j :: 0 <= j < |batch| ==> Follows(events, batch, j))
            && (r.Some? ==> exists j :: FirstOffender(events, batch, j, r.value))
    decreases |batch| - i
  {
    if i < |batch| {
      assert batch[i..][0] == batch[i] && batch[i..][1..] == batch[i + 1..];
      if Follows(events, batch, i) {
        CheckedExactly(events, batch, i + 1);
        assert i + 1 == |batch| ==> batch[i + 1..] == [];
      } else {
        assert FirstOffender(events, batch, i, CheckKnown(Before(events, batch, i), batch[i].times.known).value);
      }
    }
  }

  // ----- Pages

  /** The positions of the events a filter selects. */
  lemma {:induction false} Positions<T>(events: seq<Event<T>>, f: HistoryFilter, hi: nat) returns (at: seq<int>)
    requires hi <= |events|
    ensures var found := Select(events, f, 0, hi);
            && |at| == |found| && (forall i :: 0 <= i < |at| ==> 0 <= at[i] < hi && found[i] == events[at[i]])
            && (forall i, j :: 0 <= i < j < |at| ==> at[i] < at[j])
    ensures forall q :: 0 <= q < hi ==> (q in at <==> f.Accepts(events[q].entity, events[q].times))
    decreases hi
  {
    hide HistoryFilter.Accepts;
    if hi == 0 {
      return [];
    }
    var before := Positions(events, f, hi - 1);
    at := before + if f.Accepts(events[hi - 1].entity, events[hi - 1].times) then [hi - 1] else [];
    assert forall i :: 0 <= i < |before| ==> before[i] in before;
  }

  /** A finished paged query: the pages hold the events at increasing positions of the snapshot, exactly those of the
      asked entity, known by the cut-off, and with a time on the asked axis and clock inside the asked range. */
  lemma PagedExactly<T>(source: int, epoch: int, events: seq<Event<T>>, filter: HistoryFilter, rounds: seq<Round<T>>)
    returns (at: seq<int>)
    requires rounds != [] && Positive(rounds) && ClockFits(filter, events + rounds[0].appended)
    requires |rounds| >= |events + rounds[0].appended|
    ensures var snapshot := events + rounds[0].appended;
            var r := Pages(source, epoch, events, filter, None, rounds);
            && r.Ok? && r.value.cursor.None?
            && |at| == |r.value.events| && (forall i, j :: 0 <= i < j < |at| ==> at[i] < at[j])
            && (forall i :: 0 <= i < |at| ==> 0 <= at[i] < |snapshot| && r.value.events[i] == snapshot[at[i]])
    ensures var snapshot := events + rounds[0].appended;
            forall q :: 0 <= q < |snapshot| ==> (q in at <==>
              var e := snapshot[q];
              && (filter.entity.Some? ==> e.entity == filter.entity.value)
              && (filter.knownAsOf.Some? ==> e.times.known.ticks <= filter.knownAsOf.value.ticks)
              && (filter.time.Some? ==>
                    var axis, range := filter.time.value.0, filter.time.value.1;
                    && (axis.Observed? ==> e.times.observed.Some?)
                    && var t := if axis.Valid? then e.times.valid
                                else if axis.Known? then e.times.known
                                else e.times.observed.value;
                       t.clock == range.clock && range.start <= t.ticks < range.end))
  {
    hide Select, Pages, Positive;
    var snapshot := events + rounds[0].appended;
    PagesAreOneFilter(source, epoch, events, filter, rounds);
    at := Positions(snapshot, filter, |snapshot|);
  }

  /** With a cut-off alone, the pages are the events up to the last one known by then. */
  lemma CutOffIsPrefix<T>(source: int, epoch: int, events: seq<Event<T>>, cutoff: Timestamp, rounds: seq<Round<T>>)
    returns (k: nat)
    requires rounds != [] && Positive(rounds) && |rounds| >= |events + rounds[0].appended|
    requires WellKept(source, epoch, events + rounds[0].appended)
    requires ClockFits(HistoryFilter(None, None, Some(cutoff)), events + rounds[0].appended)
    ensures var snapshot := events + rounds[0].appended;
            var r := Pages(source, epoch, events, HistoryFilter(None, None, Some(cutoff)), None, rounds);
            && k <= |snapshot| && r == Ok(Paging(snapshot[..k], None))
            && forall i :: 0 <= i < |snapshot| ==> (snapshot[i].times.known.ticks <= cutoff.ticks <==> i < k)
  {
    hide Select, Pages, Positive, WellKept;
    var snapshot, f := events + rounds[0].appended, HistoryFilter(None, None, Some(cutoff));
    PagesAreOneFilter(source, epoch, events, f, rounds);
    k := KnownAsOfIsPrefix(source, epoch, snapshot, cutoff.ticks);
    SelectsPrefix(snapshot, f, cutoff, k, |snapshot|);
  }

  lemma {:induction false} SelectsPrefix<T>(events: seq<Event<T>>, f: HistoryFilter, cutoff: Timestamp, k: nat, hi: nat)
    requires hi <= |events| && k <= |events| && f == HistoryFilter(None, None, Some(cutoff))
    requires forall i :: 0 <= i < |events| ==> (events[i].times.known.ticks <= cutoff.ticks <==> i < k)
    ensures Select(events, f, 0, hi) == events[..Min(hi, k)]
    decreases hi
  {
    if hi > 0 {
      SelectsPrefix(events, f, cutoff, k, hi - 1);
    }
  }

  /** A page ends early only when one of its budgets is used up. */
  lemma {:induction false} StopsWhenFull<T>(events: seq<Event<T>>, f: HistoryFilter, from: nat, to: nat, results: nat,
                                            scanned: nat)
    requires from <= to <= |events|
    ensures var stop := Stop(events, f, from, to, results, scanned);
            stop < to ==> stop - from == scanned || |Select(events, f, from, stop)| == results
    decreases scanned
  {
    if from < to && results > 0 && scanned > 0 {
      var left := if Accepts(f, events[from]) then results - 1 else results;
      StopsWhenFull(events, f, from + 1, to, left, scanned - 1);
      SelectSplit(events, f, from, from + 1, Stop(events, f, from, to, results, scanned));
      assert Select(events, f, from, from) == [];
    } else if from < to {
      assert Select(events, f, from, from) == [];
    }
  }

  /** One page: how far it went, that it went as far as its budgets allow, and where the next one starts. */
  lemma PageExactly<T>(source: int, epoch: int, events: seq<Event<T>>, filter: HistoryFilter, budget: Budget,
                       cursor: Option<Cursor>)
    requires Query(source, epoch, events, filter, budget, cursor).Ok?
    ensures var p := Query(source, epoch, events, filter, budget, cursor).value;
            var from := if cursor.Some? then cursor.value.nextOffset else 0;
            var to := if cursor.Some? then cursor.value.snapshotLen else |events|;
            && from + p.scanned <= to && p.scanned <= budget.maxScanned && |p.events| <= budget.maxResults
            && (from + p.scanned < to ==>
                  && (p.scanned == budget.maxScanned || |p.events| == budget.maxResults)
                  && p.continuation == Some(Cursor(source, epoch, to, from + p.scanned, filter)))
            && (from + p.scanned == to ==> p.continuation.None?)
  {
    hide Select, Stop;
    var from := if cursor.Some? then cursor.value.nextOffset else 0;
    var to := if cursor.Some? then cursor.value.snapshotLen else |events|;
    StopsWhenFull(events, filter, from, to, budget.maxResults, budget.maxScanned);
    PageWithinBudget(events, filter, from, to, budget.maxResults, budget.maxScanned);
  }

  /** Which calls are refused, and in which order the checks are made. */
  lemma RefusedExactly<T>(source: int, epoch: int, events: seq<Event<T>>, filter: HistoryFilter, budget: Budget,
                          cursor: Option<Cursor>)
    ensures var r := Query(source, epoch, events, filter, budget, cursor);
            var noBudget := budget.maxResults == 0 || budget.maxScanned == 0;
            var otherClock := filter.knownAsOf.Some? && events != []
                              && filter.knownAsOf.value.clock != events[0].times.known.clock;
            var foreign := cursor.Some?
                           && !(cursor.value.source == source && cursor.value.epoch == epoch
                                && cursor.value.filter == filter
                                && cursor.value.nextOffset <= cursor.value.snapshotLen <= |events|);
            && (r == Err(InvalidBudget) <==> noBudget)
            && (!noBudget && otherClock ==>
                  r == Err(KnownClockMismatch(events[0].times.known.clock, filter.knownAsOf.value.clock)))
            && (!noBudget && !otherClock ==> (r == Err(InvalidCursor) <==> foreign) && (r.Ok? <==> !foreign))
  {
    hide PageOf;
  }
}
