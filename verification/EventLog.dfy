/** The bounded in-memory event log: all-or-nothing admission and snapshot-pinned paging. */
module EventLog {
  import opened Core

  datatype Input<T> = Input(entity: EntityId, times: EventTimes, change: T)

  datatype Event<T> = Event(id: EventId, entity: EntityId, times: EventTimes, change: T)

  datatype EventError =
    | EmptyBatch
    | CapacityExceeded(available: int, requested: int)
    | KnownClockMismatch(expected: int, actual: int)
    | KnownTimeRegression(previous: int, actual: int)
    | InvalidBudget
    | InvalidCursor

  datatype Receipt = Receipt(first: EventId, last: EventId, count: int)

  datatype Budget = Budget(maxResults: nat, maxScanned: nat)

  datatype Cursor = Cursor(source: int, epoch: int, snapshotLen: nat, nextOffset: nat, filter: HistoryFilter)

  datatype Page<T> = Page(events: seq<Event<T>>, scanned: nat, continuation: Option<Cursor>)

  // ----- Admission

  /** Known time stays on one clock and never goes back. */
  function CheckKnown(previous: Option<Timestamp>, actual: Timestamp): Option<EventError> {
    if previous.None? then None
    else if previous.value.clock != actual.clock then Some(KnownClockMismatch(previous.value.clock, actual.clock))
    else if actual.ticks < previous.value.ticks then Some(KnownTimeRegression(previous.value.ticks, actual.ticks))
    else None
  }

  /** The first complaint about a batch, if any. */
  function CheckBatch<T>(previous: Option<Timestamp>, batch: seq<Input<T>>): Option<EventError>
    decreases |batch|
  {
    if batch == [] then None
    else
      var e := CheckKnown(previous, batch[0].times.known);
      if e.Some? then e else CheckBatch(Some(batch[0].times.known), batch[1..])
  }

  /** Why a batch is refused, in the order of the checks; capacity comes before known time. */
  function Refusal<T>(capacity: int, events: seq<Event<T>>, batch: seq<Input<T>>): Option<EventError> {
    if batch == [] then Some(EmptyBatch)
    else if |batch| > capacity - |events| then Some(CapacityExceeded(capacity - |events|, |batch|))
    else CheckBatch(LastKnown(events), batch)
  }

  function LastKnown<T>(events: seq<Event<T>>): Option<Timestamp> {
    if events == [] then None else Some(events[|events| - 1].times.known)
  }

  /** The same clock, and `b` is not before `a`. */
  ghost predicate NoEarlier(a: Timestamp, b: Timestamp) {
    a.clock == b.clock && a.ticks <= b.ticks
  }

  /** Every event carries its position, and known times are ordered on one clock. */
  ghost predicate WellKept<T>(source: int, epoch: int, events: seq<Event<T>>) {
    && (forall i :: 0 <= i < |events| ==> events[i].id == EventId(source, epoch, i))
    && (forall i, j :: 0 <= i <= j < |events| ==> NoEarlier(events[i].times.known, events[j].times.known))
  }

  /** The batch as it is stored from position `at` on. */
  function Stored<T>(source: int, epoch: int, at: int, batch: seq<Input<T>>): (r: seq<Event<T>>)
    ensures |r| == |batch|
    ensures forall i :: 0 <= i < |batch| ==>
              r[i] == Event(EventId(source, epoch, at + i), batch[i].entity, batch[i].times, batch[i].change)
  {
    if batch == [] then []
    else
      Stored(source, epoch, at, batch[..|batch| - 1])
      + [var x := batch[|batch| - 1]; Event(EventId(source, epoch, at + |batch| - 1), x.entity, x.times, x.change)]
  }

  /** An accepted batch is in known-time order after what was there. */
  lemma {:induction false} CheckedBatch<T>(previous: Option<Timestamp>, batch: seq<Input<T>>)
    requires CheckBatch(previous, batch).None?
    ensures forall i, j :: 0 <= i <= j < |batch| ==> NoEarlier(batch[i].times.known, batch[j].times.known)
    ensures previous.Some? ==> forall i :: 0 <= i < |batch| ==> NoEarlier(previous.value, batch[i].times.known)
    decreases |batch|
  {
    if batch != [] {
      CheckedBatch(Some(batch[0].times.known), batch[1..]);
      assert forall i :: 0 < i < |batch| ==> batch[i] == batch[1..][i - 1];
    }
  }

  lemma AppendKeepsOrder<T>(source: int, epoch: int, events: seq<Event<T>>, batch: seq<Input<T>>)
    requires WellKept(source, epoch, events) && CheckBatch(LastKnown(events), batch).None?
    ensures WellKept(source, epoch, events + Stored(source, epoch, |events|, batch))
  {
    var more := Stored(source, epoch, |events|, batch);
    var all := events + more;
    CheckedBatch(LastKnown(events), batch);
    hide CheckBatch, Stored;
    hide NoEarlier;
    forall i, j | 0 <= i <= j < |all|
      ensures NoEarlier(all[i].times.known, all[j].times.known)
    {
      if j >= |events| {
        assert all[j].times == batch[j - |events|].times;
        if i < |events| {
          assert all[i] == events[i];
          Later(events[i].times.known, events[|events| - 1].times.known, batch[j - |events|].times.known);
        } else {
          assert all[i].times == batch[i - |events|].times;
        }
      }
    }
  }

  lemma Later(a: Timestamp, b: Timestamp, c: Timestamp)
    requires NoEarlier(a, b) && NoEarlier(b, c)
    ensures NoEarlier(a, c)
  {
  }

  // ----- Paging

  predicate Accepts<T>(f: HistoryFilter, e: Event<T>) {
    f.Accepts(e.entity, e.times)
  }

  /** The accepted events among positions `lo` up to `hi`. */
  function Select<T>(events: seq<Event<T>>, f: HistoryFilter, lo: nat, hi: nat): seq<Event<T>>
    requires lo <= hi <= |events|
    decreases hi
  {
    if lo == hi then []
    else Select(events, f, lo, hi - 1) + if Accepts(f, events[hi - 1]) then [events[hi - 1]] else []
  }

  /** Where the scan stops: at the snapshot's end, or when a budget is used up. */
  function Stop<T>(events: seq<Event<T>>, f: HistoryFilter, from: nat, to: nat, results: nat, scanned: nat): (r: nat)
    requires from <= to <= |events|
    ensures from <= r <= to && r - from <= scanned
    ensures from < to && results > 0 && scanned > 0 ==> from < r
    decreases scanned
  {
    if from == to || results == 0 || scanned == 0 then from
    else Stop(events, f, from + 1, to, if Accepts(f, events[from]) then results - 1 else results, scanned - 1)
  }

  lemma {:induction false} SelectSplit<T>(events: seq<Event<T>>, f: HistoryFilter, lo: nat, mid: nat, hi: nat)
    requires lo <= mid <= hi <= |events|
    ensures Select(events, f, lo, mid) + Select(events, f, mid, hi) == Select(events, f, lo, hi)
    decreases hi
  {
    if mid < hi {
      SelectSplit(events, f, lo, mid, hi - 1);
    }
  }

  /** A page never holds more results than its budget. */
  lemma {:induction false} PageWithinBudget<T>(events: seq<Event<T>>, f: HistoryFilter, from: nat, to: nat,
                                               results: nat, scanned: nat)
    requires from <= to <= |events|
    ensures |Select(events, f, from, Stop(events, f, from, to, results, scanned))| <= results
    decreases scanned
  {
    var stop := Stop(events, f, from, to, results, scanned);
    if from < stop {
      var left := if Accepts(f, events[from]) then results - 1 else results;
      PageWithinBudget(events, f, from + 1, to, left, scanned - 1);
      SelectSplit(events, f, from, from + 1, stop);
      assert Select(events, f, from, from) == [];
    }
  }

  /** Appending does not change what was selected before. */
  lemma {:induction false} SelectStable<T>(events: seq<Event<T>>, more: seq<Event<T>>, f: HistoryFilter, lo: nat,
                                           hi: nat)
    requires lo <= hi <= |events|
    ensures Select(events + more, f, lo, hi) == Select(events, f, lo, hi)
    decreases hi
  {
    if lo < hi {
      SelectStable(events, more, f, lo, hi - 1);
    }
  }

  class Log<T(!new)> {
    const source: int
    const epoch: int
    const capacity: int
    var events: seq<Event<T>>

    ghost predicate Valid()
      reads this
    {
      |events| <= capacity && WellKept(source, epoch, events)
    }

    constructor (source: int, epoch: int, capacity: nat)
      ensures Valid() && events == []
    {
      this.source, this.epoch, this.capacity, events := source, epoch, capacity, [];
    }

    /** All or nothing: either every input is stored in order, or nothing changes. */
    method AppendBatch(batch: seq<Input<T>>) returns (r: Result<Receipt, EventError>)
      requires Valid()
      modifies this
      ensures Valid()
      ensures var refusal := Refusal(capacity, old(events), batch);
              if refusal.Some? then r == Err(refusal.value) && events == old(events)
              else r ==
                   Ok(Receipt(EventId(source, epoch, old(|events|)), EventId(source, epoch, |events| - 1), |batch|))
                   && events == old(events) + Stored(source, epoch, old(|events|), batch)
    {
      hide WellKept, CheckBatch;
      if batch == [] {
        return Err(EmptyBatch);
      }
      if |batch| > capacity - |events| {
        return Err(CapacityExceeded(capacity - |events|, |batch|));
      }
      var complaint := FirstComplaint(LastKnown(events), batch);
      if complaint.Some? {
        return Err(complaint.value);
      }
      AppendKeepsOrder(source, epoch, events, batch);
      var at := |events|;
      PushAll(batch);
      r := Ok(Receipt(EventId(source, epoch, at), EventId(source, epoch, |events| - 1), |batch|));
    }

    /** The mutation, once every check has passed. */
    method PushAll(batch: seq<Input<T>>)
      modifies this
      ensures events == old(events) + Stored(source, epoch, old(|events|), batch)
    {
      var at := |events|;
      for i := 0 to |batch|
        invariant |events| == at + i && events == old(events) + Stored(source, epoch, at, batch[..i])
      {
        assert batch[..i + 1][..i] == batch[..i];
        var x := batch[i];
        events := events + [Event(EventId(source, epoch, |events|), x.entity, x.times, x.change)];
      }
      assert batch[..|batch|] == batch;
    }

    method FirstComplaint(previous0: Option<Timestamp>, batch: seq<Input<T>>) returns (e: Option<EventError>)
      ensures e == CheckBatch(previous0, batch)
    {
      var previous := previous0;
      for i := 0 to |batch|
        invariant CheckBatch(previous, batch[i..]) == CheckBatch(previous0, batch)
      {
        e := CheckKnown(previous, batch[i].times.known);
        if e.Some? {
          return;
        }
        assert batch[i..][1..] == batch[i + 1..];
        previous := Some(batch[i].times.known);
      }
      e := None;
    }

    /** One event is a batch of one. */
    method Append(x: Input<T>) returns (r: Result<Receipt, EventError>)
      requires Valid()
      modifies this
      ensures Valid()
      ensures var refusal := Refusal(capacity, old(events), [x]);
              if refusal.Some? then r == Err(refusal.value) && events == old(events)
              else var id := EventId(source, epoch, old(|events|));
                   r == Ok(Receipt(id, id, 1)) && events == old(events) + Stored(source, epoch, old(|events|), [x])
    {
      assert [x][1..] == [];
      if 1 > capacity - |events| {
        return Err(CapacityExceeded(capacity - |events|, 1));
      }
      var complaint := CheckKnown(LastKnown(events), x.times.known);
      if complaint.Some? {
        return Err(complaint.value);
      }
      AppendKeepsOrder(source, epoch, events, [x]);
      var id := EventId(source, epoch, |events|);
      assert Stored(source, epoch, |events|, [x]) == [Event(id, x.entity, x.times, x.change)];
      events := events + [Event(id, x.entity, x.times, x.change)];
      r := Ok(Receipt(id, id, 1));
    }

    method History(filter: HistoryFilter, budget: Budget, cursor: Option<Cursor>)
      returns (r: Result<Page<T>, EventError>)
      requires Valid()
      ensures r == Query(source, epoch, events, filter, budget, cursor)
    {
      hide Stop, Select, WellKept;
      if budget.maxResults == 0 || budget.maxScanned == 0 {
        return Err(InvalidBudget);
      }
      if filter.knownAsOf.Some? && events != [] && filter.knownAsOf.value.clock != events[0].times.known.clock {
        return Err(KnownClockMismatch(events[0].times.known.clock, filter.knownAsOf.value.clock));
      }
      var to: nat, offset: nat := |events|, 0;
      if cursor.Some? {
        if !CursorFits(cursor.value, source, epoch, filter, |events|) {
          return Err(InvalidCursor);
        }
        to, offset := cursor.value.snapshotLen, cursor.value.nextOffset;
      }
      var found, stop := ScanFrom(filter, budget, offset, to);
      var continuation := if stop < to then Some(Cursor(source, epoch, to, stop, filter)) else None;
      r := Ok(Page(found, stop - offset, continuation));
    }

    /** The scan loop: stops at the snapshot's end or when a budget is used up. */
    method ScanFrom(filter: HistoryFilter, budget: Budget, from: nat, to: nat)
      returns (found: seq<Event<T>>, offset: nat)
      requires from <= to <= |events|
      ensures offset == Stop(events, filter, from, to, budget.maxResults, budget.maxScanned)
      ensures found == Select(events, filter, from, offset)
    {
      found, offset := [], from;
      var scanned := 0;
      while offset < to && scanned < budget.maxScanned && |found| < budget.maxResults
        invariant from <= offset <= to && scanned == offset - from <= budget.maxScanned && |found| <= budget.maxResults
        invariant found == Select(events, filter, from, offset)
        invariant Stop(events, filter, offset, to, budget.maxResults - |found|, budget.maxScanned - scanned)
               == Stop(events, filter, from, to, budget.maxResults, budget.maxScanned)
      {
        var e := events[offset];
        offset := offset + 1;
        scanned := scanned + 1;
        if filter.Accepts(e.entity, e.times) {
          found := found + [e];
        }
      }
    }
  }

  function PageOf<T>(source: int, epoch: int, events: seq<Event<T>>, filter: HistoryFilter, budget: Budget,
                     from: nat, to: nat): Page<T>
    requires from <= to <= |events|
  {
    var stop := Stop(events, filter, from, to, budget.maxResults, budget.maxScanned);
    Page(Select(events, filter, from, stop), stop - from,
         if stop < to then Some(Cursor(source, epoch, to, stop, filter)) else None)
  }

  /** The cursor is of this log and query, and inside its snapshot. */
  predicate CursorFits(c: Cursor, source: int, epoch: int, filter: HistoryFilter, length: nat) {
    && c.source == source && c.epoch == epoch && c.filter == filter
    && c.snapshotLen <= length && c.nextOffset <= c.snapshotLen
  }

  /** A cut-off is on the log's known clock; an empty log has none yet. */
  predicate ClockFits<T>(filter: HistoryFilter, events: seq<Event<T>>) {
    filter.knownAsOf.Some? && events != [] ==> filter.knownAsOf.value.clock == events[0].times.known.clock
  }

  /** One history call: its page, or the first check that refuses it. */
  function Query<T>(source: int, epoch: int, events: seq<Event<T>>, filter: HistoryFilter, budget: Budget,
                    cursor: Option<Cursor>): Result<Page<T>, EventError>
  {
    if budget.maxResults == 0 || budget.maxScanned == 0 then Err(InvalidBudget)
    else if !ClockFits(filter, events) then
      Err(KnownClockMismatch(events[0].times.known.clock, filter.knownAsOf.value.clock))
    else if cursor.None? then Ok(PageOf(source, epoch, events, filter, budget, 0, |events|))
    else if !CursorFits(cursor.value, source, epoch, filter, |events|) then Err(InvalidCursor)
    else Ok(PageOf(source, epoch, events, filter, budget, cursor.value.nextOffset, cursor.value.snapshotLen))
  }

  // ----- Whole queries

  /** One round of a paged query: what others append first, and the budget of this page. */
  datatype Round<T> = Round(appended: seq<Event<T>>, budget: Budget)

  /** The events of the pages so far, and the cursor of the next page, if any. */
  datatype Paging<T> = Paging(events: seq<Event<T>>, cursor: Option<Cursor>)

  /** Calls history once per round, each time with the cursor of the page before, until there is none. */
  function Pages<T>(source: int, epoch: int, events: seq<Event<T>>, filter: HistoryFilter, cursor: Option<Cursor>,
                    rounds: seq<Round<T>>): Result<Paging<T>, EventError>
    decreases |rounds|
  {
    if rounds == [] then Ok(Paging([], cursor))
    else
      var now := events + rounds[0].appended;
      var page := Query(source, epoch, now, filter, rounds[0].budget, cursor);
      if page.Err? then Err(page.error)
      else if page.value.continuation.None? then Ok(Paging(page.value.events, None))
      else
        var more := Pages(source, epoch, now, filter, page.value.continuation, rounds[1..]);
        if more.Err? then more else Ok(Paging(page.value.events + more.value.events, more.value.cursor))
  }

  ghost predicate Positive<T>(rounds: seq<Round<T>>) {
    forall i :: 0 <= i < |rounds| ==> rounds[i].budget.maxResults > 0 && rounds[i].budget.maxScanned > 0
  }

  /** A continuation stays valid however much is appended. */
  lemma ContinuationFits<T>(source: int, epoch: int, events: seq<Event<T>>, more: seq<Event<T>>, filter: HistoryFilter,
                            budget: Budget, cursor: Option<Cursor>)
    requires Query(source, epoch, events, filter, budget, cursor).Ok?
    requires Query(source, epoch, events, filter, budget, cursor).value.continuation.Some?
    ensures var c := Query(source, epoch, events, filter, budget, cursor).value.continuation.value;
            CursorFits(c, source, epoch, filter, |events + more|) && ClockFits(filter, events + more)
            && c.nextOffset < c.snapshotLen
  {
    hide Stop, Select;
    assert events != [] ==> (events + more)[0] == events[0];
  }

  /** From a cursor on: no call is refused, and the pages are one filtering of what is left of the snapshot. */
  lemma {:induction false} LaterPages<T>(source: int, epoch: int, events: seq<Event<T>>, filter: HistoryFilter,
                                         c: Cursor, rounds: seq<Round<T>>)
    requires CursorFits(c, source, epoch, filter, |events|) && c.nextOffset < c.snapshotLen
    requires ClockFits(filter, events) && Positive(rounds)
    ensures var r := Pages(source, epoch, events, filter, Some(c), rounds);
            && r.Ok? && Covers(r.value, events, filter, c.nextOffset, c.snapshotLen)
            && (|rounds| >= c.snapshotLen - c.nextOffset ==> r.value.cursor.None?)
    decreases |rounds|
  {
    hide Stop, Select;
    if rounds == [] {
      NothingSelected(events, filter, c.nextOffset);
    } else {
      var b, added := rounds[0].budget, rounds[0].appended;
      var now := events + added;
      assert now[0] == events[0];
      var stop := Stop(now, filter, c.nextOffset, c.snapshotLen, b.maxResults, b.maxScanned);
      SelectStable(events, added, filter, c.nextOffset, stop);
      if stop < c.snapshotLen {
        var next := Cursor(source, epoch, c.snapshotLen, stop, filter);
        LaterPages(source, epoch, now, filter, next, rounds[1..]);
        var r := Pages(source, epoch, now, filter, Some(next), rounds[1..]).value;
        var end := if r.cursor.Some? then r.cursor.value.nextOffset else c.snapshotLen;
        SelectSplit(now, filter, c.nextOffset, stop, end);
        SelectStable(events, added, filter, c.nextOffset, end);
      }
    }
  }

  /** The pages hold exactly the accepted events from `from` up to where paging stands. */
  ghost predicate Covers<T>(p: Paging<T>, events: seq<Event<T>>, filter: HistoryFilter, from: nat, to: nat)
    requires to <= |events|
  {
    var end := if p.cursor.Some? then p.cursor.value.nextOffset else to;
    from <= end <= to && p.events == Select(events, filter, from, end)
  }

  lemma NothingSelected<T>(events: seq<Event<T>>, filter: HistoryFilter, at: nat)
    requires at <= |events|
    ensures Select(events, filter, at, at) == []
  {
  }

  /** Whatever the budgets and the appends between pages, no call is refused after the first, and the pages together
      are one filtering of the snapshot the first call saw; as many calls as it has events are always enough. */
  lemma PagesAreOneFilter<T>(source: int, epoch: int, events: seq<Event<T>>, filter: HistoryFilter,
                             rounds: seq<Round<T>>)
    requires rounds != [] && Positive(rounds) && ClockFits(filter, events + rounds[0].appended)
    ensures var snapshot := events + rounds[0].appended;
            var r := Pages(source, epoch, events, filter, None, rounds);
            && r.Ok? && Covers(r.value, snapshot, filter, 0, |snapshot|)
            && (|rounds| >= |snapshot| ==> r.value.cursor.None?)
  {
    hide Stop, Select;
    var now, b := events + rounds[0].appended, rounds[0].budget;
    var stop := Stop(now, filter, 0, |now|, b.maxResults, b.maxScanned);
    if stop < |now| {
      var next := Cursor(source, epoch, |now|, stop, filter);
      LaterPages(source, epoch, now, filter, next, rounds[1..]);
      var r := Pages(source, epoch, now, filter, Some(next), rounds[1..]).value;
      var end := if r.cursor.Some? then r.cursor.value.nextOffset else |now|;
      SelectSplit(now, filter, 0, stop, end);
    }
  }

  /** A cut-off in known time always selects a prefix of the log. */
  lemma {:induction false} KnownAsOfIsPrefix<T>(source: int, epoch: int, events: seq<Event<T>>, cutoff: int)
    returns (k: nat)
    requires WellKept(source, epoch, events)
    ensures k <= |events|
    ensures forall i :: 0 <= i < |events| ==> (events[i].times.known.ticks <= cutoff <==> i < k)
  {
    if events == [] || events[|events| - 1].times.known.ticks <= cutoff {
      k := |events|;
    } else {
      var init := events[..|events| - 1];
      k := KnownAsOfIsPrefix(source, epoch, init, cutoff);
    }
  }
}
