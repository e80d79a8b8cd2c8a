/** What a subscriber gets, told by the steps of its own subscription: announcement, replay, live events, leaving. */
module SubscriptionRuns {
  import opened Core
  import opened Subscription

  /** The same step a number of times. */
  function Repeat(s: State, a: Action, n: nat): State {
    if n == 0 then s else Apply(Repeat(s, a, n - 1), a)
  }

  // ----- Draining

  /** As many drains as the queue is long send exactly the queued events, in order and flagged live; fewer drains
      send the first of them. Nothing else changes. */
  lemma {:induction false} Drains(s: State, id: nat, k: nat)
    requires id in s.sessions && s.sessions[id].stage == Live && k <= |s.sessions[id].queue|
    ensures var x := s.sessions[id]; var sent := x.queue[..k];
            Repeat(s, Drain(id), k) == s.(sessions := s.sessions[id := x.(
              wire := x.wire + Tagged(sent, true), queue := x.queue[k..], delivered := x.delivered + sent)])
  {
    hide Tagged;
    var x := s.sessions[id];
    if k == 0 {
      NothingTagged(true);
      assert x.wire + [] == x.wire && x.delivered + [] == x.delivered && x.queue[0..] == x.queue;
    } else {
      Drains(s, id, k - 1);
      var sent := x.queue[..k];
      TaggedAppend(x.queue[..k - 1], x.queue[k - 1], true);
      assert sent == x.queue[..k - 1] + [x.queue[k - 1]];
      assert x.queue[k - 1..][0] == x.queue[k - 1] && x.queue[k - 1..][1..] == x.queue[k..];
      Regroup(x.wire, Tagged(x.queue[..k - 1], true), Record(x.queue[k - 1], true));
      Regroup(x.delivered, x.queue[..k - 1], x.queue[k - 1]);
    }
  }

  lemma Regroup<T>(a: seq<T>, b: seq<T>, c: T)
    ensures a + b + [c] == a + (b + [c])
  {
  }

  lemma NothingTagged(live: bool)
    ensures Tagged([], live) == []
  {
  }

  // ----- Replay

  lemma {:induction false} Sends(s: State, id: nat, k: nat)
    requires id in s.sessions && s.sessions[id].stage == Replaying && k <= |s.sessions[id].rows|
    ensures var x := s.sessions[id]; var sent := x.rows[..k];
            Repeat(s, SendRow(id), k) == s.(sessions := s.sessions[id := x.(
              wire := x.wire + Tagged(sent, false), rows := x.rows[k..], replayed := x.replayed + sent)])
  {
    hide Tagged;
    var x := s.sessions[id];
    if k == 0 {
      NothingTagged(false);
      assert x.wire + [] == x.wire && x.replayed + [] == x.replayed && x.rows[0..] == x.rows;
    } else {
      Sends(s, id, k - 1);
      var sent := x.rows[..k];
      TaggedAppend(x.rows[..k - 1], x.rows[k - 1], false);
      assert sent == x.rows[..k - 1] + [x.rows[k - 1]];
      assert x.rows[k - 1..][0] == x.rows[k - 1] && x.rows[k - 1..][1..] == x.rows[k..];
      Regroup(x.wire, Tagged(x.rows[..k - 1], false), Record(x.rows[k - 1], false));
      Regroup(x.replayed, x.rows[..k - 1], x.rows[k - 1]);
    }
  }

  /** The scan, all its rows, and the switch to live events. */
  function Replay(s: State, id: nat, succeeds: bool, reach: nat): State
    requires id in s.sessions
  {
    var t := Apply(s, Scan(id, succeeds, reach));
    if id in t.sessions then Repeat(t, SendRow(id), |t.sessions[id].rows| + 1) else t
  }

  /** A replay sends exactly the snapshot's rows, flagged as not live, and nothing when the scan fails; then the
      subscription is live. */
  lemma ReplaySends(s: State, id: nat, succeeds: bool, reach: nat)
    requires id in s.sessions && s.sessions[id].stage == Registered && s.sessions[id].start <= s.sessions[id].end
    ensures var x := s.sessions[id];
            var rows := if succeeds && x.start < x.end then SnapshotRows(s.log, x.plan, x.start, x.end, reach) else [];
            Replay(s, id, succeeds, reach) == s.(sessions := s.sessions[id := x.(
              wire := x.wire + Tagged(rows, false), rows := [], replayed := x.replayed + rows, stage := Live)])
  {
    hide SnapshotRows, Tagged;
    var x := s.sessions[id];
    var t := Apply(s, Scan(id, succeeds, reach));
    var rows := t.sessions[id].rows;
    Sends(t, id, |rows|);
    assert rows[..|rows|] == rows && rows[|rows|..] == [];
  }

  // ----- Announcement

  /** Where a subscription starts: at the present end when it asks for new events only, otherwise at the sequence it
      names, or at the first, but not beyond the end. */
  function Announced(length: nat, fromNow: bool, fromSequence: Option<nat>): nat {
    if fromNow then length
    else if fromSequence.None? then 0
    else if fromSequence.value <= length then fromSequence.value
    else length
  }

  /** Length read and registration, without a step of anyone else in between. */
  function Join(s: State, conn: nat, plan: Plan, fromNow: bool, fromSequence: Option<nat>): State {
    Apply(Apply(s, Measure(conn, plan, fromNow, fromSequence)), Register(conn))
  }

  lemma Joins(s: State, conn: nat, plan: Plan, fromNow: bool, fromSequence: Option<nat>)
    ensures var start, end := Announced(|s.log|, fromNow, fromSequence), |s.log|;
            var x := Session(plan, start, end, true, Registered, [], [], [], end, end, {}, [], []);
            Join(s, conn, plan, fromNow, fromSequence) ==
            State(s.log, s.nextId + 1, s.measured - {conn}, s.sessions[s.nextId := x])
  {
    var m := Apply(s, Measure(conn, plan, fromNow, fromSequence));
    assert m.measured - {conn} == s.measured - {conn};
  }

  // ----- Live events

  function AppendAll(s: State, later: seq<(EntityId, EventTimes)>): (t: State)
    ensures |t.log| == |s.log| + |later|
  {
    if later == [] then s
    else
      var last := later[|later| - 1];
      Apply(AppendAll(s, later[..|later| - 1]), Append(last.0, last.1))
  }

  lemma {:induction false} AppendAllLog(s: State, later: seq<(EntityId, EventTimes)>)
    ensures var t := AppendAll(s, later);
            && |t.log| == |s.log| + |later| && t.log[..|s.log|] == s.log && t.nextId == s.nextId
            && forall i :: 0 <= i < |later| ==>
                 t.log[|s.log| + i] == Event(|s.log| + i, later[i].0, later[i].1)
  {
    if later != [] {
      AppendAllLog(s, later[..|later| - 1]);
    } else {
      assert s.log[..|s.log|] == s.log;
    }
  }

  /** The sequences of the events appended after the first `n` that satisfy the filter. */
  ghost function Matching(log: seq<Event>, plan: Plan, n: nat): seq<nat>
    requires n <= |log|
  {
    Surviving(log, plan, n, |log|, {})
  }

  lemma MatchingSnoc(log: seq<Event>, e: Event, plan: Plan, n: nat)
    requires n <= |log|
    ensures Matching(log + [e], plan, n) == Matching(log, plan, n) + if plan.filter(e) == Match then [|log|] else []
  {
    var none: set<nat> := {};
    SurvivingExtends(log, [e], plan, n, |log|, none, none);
    assert none + none == none;
  }

  /** While 1024 slots are not used up, every matching event is queued, in order, and nothing else is. */
  lemma {:induction false} Queued(s: State, id: nat, later: seq<(EntityId, EventTimes)>)
    requires id in s.sessions && s.sessions[id].active && s.sessions[id].stage == Live
    requires |s.sessions[id].queue| + |Matching(AppendAll(s, later).log, s.sessions[id].plan, |s.log|)| <= 1024
    ensures var t, x := AppendAll(s, later), s.sessions[id];
            && id in t.sessions
            && t.sessions[id] == x.(queue := x.queue + Matching(t.log, x.plan, |s.log|), seen := x.seen + |later|)
  {
    hide Matching;
    var x := s.sessions[id];
    if later == [] {
      NoneMatching(s.log, x.plan);
      assert x.queue + [] == x.queue;
    } else {
      var init, last := later[..|later| - 1], later[|later| - 1];
      var before := AppendAll(s, init);
      MatchingSnoc(before.log, Event(|before.log|, last.0, last.1), x.plan, |s.log|);
      Queued(s, id, init);
    }
  }

  lemma NoneMatching(log: seq<Event>, plan: Plan)
    ensures Matching(log, plan, |log|) == []
  {
  }

  lemma MatchingExactly(log: seq<Event>, plan: Plan, n: nat, q: nat)
    requires n <= |log|
    ensures q in Matching(log, plan, n) <==> n <= q < |log| && plan.filter(log[q]) == Match
  {
    SurvivingProps(log, plan, n, |log|, {});
  }

  /** A matching event that meets 1024 queued ones is lost to the subscriber. */
  lemma FullQueueLoses(s: State, id: nat, entity: EntityId, times: EventTimes)
    requires id in s.sessions && s.sessions[id].active && s.sessions[id].stage != Closed
    requires |s.sessions[id].queue| >= 1024 && s.sessions[id].plan.filter(Event(|s.log|, entity, times)) == Match
    ensures var t := Apply(s, Append(entity, times));
            id in t.sessions && t.sessions[id] == s.sessions[id].(
              dropped := s.sessions[id].dropped + {|s.log|}, seen := s.sessions[id].seen + 1)
  {
  }

  // ----- Leaving

  ghost function RunFrom(s: State, actions: seq<Action>): State {
    if actions == [] then s else Apply(RunFrom(s, actions[..|actions| - 1]), actions[|actions| - 1])
  }

  lemma InactiveStays(s: State, id: nat, a: Action)
    requires id in s.sessions && !s.sessions[id].active && id < s.nextId
    ensures var t := Apply(s, a);
            && id in t.sessions && !t.sessions[id].active && id < t.nextId
            && t.sessions[id].delivered + t.sessions[id].queue == s.sessions[id].delivered + s.sessions[id].queue
  {
    hide SnapshotRows;
    var x := s.sessions[id];
    if a == Drain(id) && x.queue != [] {
      assert (x.delivered + [x.queue[0]]) + x.queue[1..] == x.delivered + x.queue;
    }
  }

  /** After unsubscribing, whatever anyone does, no further event reaches the subscriber's queue or wire. */
  lemma {:induction false} LeaverGetsNothing(s: State, id: nat, actions: seq<Action>)
    requires id in s.sessions && id < s.nextId
    ensures var t := RunFrom(Apply(s, Unregister(id)), actions);
            && id in t.sessions && !t.sessions[id].active && id < t.nextId
            && t.sessions[id].delivered + t.sessions[id].queue == s.sessions[id].delivered + s.sessions[id].queue
  {
    if actions != [] {
      var init := actions[..|actions| - 1];
      LeaverGetsNothing(s, id, init);
      hide Apply;
      InactiveStays(RunFrom(Apply(s, Unregister(id)), init), id, actions[|actions| - 1]);
    }
  }

  // ----- A whole subscription

  /** Joining, replaying, `later` appends by others, and draining what they queued. */
  function Undisturbed(s: State, conn: nat, plan: Plan, fromNow: bool, fromSequence: Option<nat>, reach: nat,
                       later: seq<(EntityId, EventTimes)>): State
  {
    var joined := Join(s, conn, plan, fromNow, fromSequence);
    if s.nextId !in joined.sessions then joined
    else
      var live := AppendAll(Replay(joined, s.nextId, true, reach), later);
      if s.nextId !in live.sessions then live
      else Repeat(live, Drain(s.nextId), |live.sessions[s.nextId].queue|)
  }

  lemma {:induction false} TaggedHas(s: seq<nat>, live: bool, r: Record)
    ensures r in Tagged(s, live) <==> r.live == live && r.sequence in s
  {
    if r.live == live && r.sequence in s {
      var i :| 0 <= i < |s| && s[i] == r.sequence;
      assert Tagged(s, live)[i] == r;
    }
  }

  /** The whole state after a subscription that nobody disturbs. */
  lemma UndisturbedIs(s: State, conn: nat, plan: Plan, fromNow: bool, fromSequence: Option<nat>, reach: nat,
                       later: seq<(EntityId, EventTimes)>)
    requires |Matching(AppendAll(s, later).log, plan, |s.log|)| <= 1024
    ensures var u := Undisturbed(s, conn, plan, fromNow, fromSequence, reach, later);
            var start := Announced(|s.log|, fromNow, fromSequence);
            var rows := if start < |s.log| then SnapshotRows(s.log, plan, start, |s.log|, reach) else [];
            && u.log == AppendAll(s, later).log && s.nextId in u.sessions
            && var x := u.sessions[s.nextId];
               && x.wire == Tagged(rows, false) + Tagged(Matching(u.log, plan, |s.log|), true)
               && x.queue == [] && x.stage == Live && x.start == start && x.end == |s.log| && x.plan == plan
  {
    hide SnapshotRows, Tagged, Apply, Matching;
    var id := s.nextId;
    Joins(s, conn, plan, fromNow, fromSequence);
    var joined := Join(s, conn, plan, fromNow, fromSequence);
    ReplaySends(joined, id, true, reach);
    var replayed := Replay(joined, id, true, reach);
    SameAppends(s, replayed, later);
    Queued(replayed, id, later);
    var live := AppendAll(replayed, later);
    var queue := live.sessions[id].queue;
    Drains(live, id, |queue|);
    assert queue[..|queue|] == queue && queue[|queue|..] == [];
    assert [] + Tagged(replayed.sessions[id].replayed, false) == Tagged(replayed.sessions[id].replayed, false);
  }

  /** What is appended does not depend on who listens. */
  lemma {:induction false} SameAppends(s: State, t: State, later: seq<(EntityId, EventTimes)>)
    requires s.log == t.log
    ensures AppendAll(s, later).log == AppendAll(t, later).log
  {
    if later != [] {
      SameAppends(s, t, later[..|later| - 1]);
    }
  }

  /** What an undisturbed subscriber gets, from any reachable state: from the snapshot exactly the matching events
      that the scan's page holds; then exactly the matching events appended later, as long as 1024 slots hold them. */
  lemma SubscriberGets(s: State, conn: nat, plan: Plan, fromNow: bool, fromSequence: Option<nat>, reach: nat,
                       later: seq<(EntityId, EventTimes)>, q: nat)
    requires Inv(s) && |Matching(AppendAll(s, later).log, plan, |s.log|)| <= 1024
    ensures var u := Undisturbed(s, conn, plan, fromNow, fromSequence, reach, later);
            var start := Announced(|s.log|, fromNow, fromSequence);
            && s.nextId in u.sessions && u.log == AppendAll(s, later).log
            && (Record(q, true) in u.sessions[s.nextId].wire <==>
                  |s.log| <= q < |u.log| && plan.filter(u.log[q]) == Match)
            && (Record(q, false) in u.sessions[s.nextId].wire <==>
                  && start <= q < |s.log| && plan.filter(s.log[q]) == Match
                  && OnPage(s.log, plan.history, Rows(plan, |s.log| - start), reach, q)
                  && Clean(s.log, plan, Rows(plan, |s.log| - start), reach))
  {
    hide SnapshotRows, Tagged, Undisturbed, Matching, OnPage, Clean;
    UndisturbedIs(s, conn, plan, fromNow, fromSequence, reach, later);
    var start := Announced(|s.log|, fromNow, fromSequence);
    var rows := if start < |s.log| then SnapshotRows(s.log, plan, start, |s.log|, reach) else [];
    var u := Undisturbed(s, conn, plan, fromNow, fromSequence, reach, later);
    var live := Matching(u.log, plan, |s.log|);
    TaggedHas(rows, false, Record(q, true));
    TaggedHas(rows, false, Record(q, false));
    TaggedHas(live, true, Record(q, true));
    TaggedHas(live, true, Record(q, false));
    MatchingExactly(u.log, plan, |s.log|, q);
    ReplayExactly(s.log, plan, start, |s.log|, reach, q);
    RowsIs(plan, |s.log| - start);
  }

  /** How many rows the scan may return: the snapshot's size, or the plan's own limit when that is smaller; at
      least one. */
  function Rows(plan: Plan, size: nat): nat {
    if plan.limit.Some? && plan.limit.value < size then (if plan.limit.value == 0 then 1 else plan.limit.value)
    else if size == 0 then 1
    else size
  }

  lemma RowsIs(plan: Plan, size: nat)
    ensures Target(plan, size) == Rows(plan, size)
  {
  }
}
