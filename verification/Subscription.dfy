/** Live subscriptions: appends, length reads, registrations, snapshot replay, draining and
    unsubscribing as atomic steps that may be interleaved in any way. */
module Subscription {
  import opened Core
  import opened Frames

  const QUEUE_SLOTS := 1024
  const MAX_SCANNED := 65_536
  const MAX_BYTES := 32 * 1024 * 1024

  datatype Event = Event(sequence: nat, entity: EntityId, times: EventTimes)

  /** The outcome of evaluating the pushdown filter on an event. */
  datatype Verdict = Match | NoMatch | Error

  /** The physical plan: what the storage scan uses, and the filter pushed down to live events. */
  datatype Plan = Plan(history: HistoryFilter, limit: Option<nat>, filter: Event -> Verdict)

  /** A record on the wire, by the sequence of its event. */
  datatype Record = Record(sequence: nat, live: bool)

  datatype Stage = Registered | Replaying | Live | Closed

  /** A subscription. `joined`, `seen` and `dropped` are history: the log length at registration, up to
      where events were offered, and which offers met a full queue. */
  datatype Session = Session(
    plan: Plan, start: nat, end: nat, active: bool, stage: Stage,
    rows: seq<nat>, queue: seq<nat>, wire: seq<Record>,
    joined: nat, seen: nat, dropped: set<nat>, replayed: seq<nat>, delivered: seq<nat>)

  /** A length read that has not led to a registration yet. */
  datatype Measured = Measured(plan: Plan, start: nat, end: nat)

  datatype State = State(log: seq<Event>, nextId: nat, measured: map<nat, Measured>, sessions: map<nat, Session>)

  datatype Action =
    | Append(entity: EntityId, times: EventTimes)
    | Measure(conn: nat, plan: Plan, fromNow: bool, fromSequence: Option<nat>)
    | Register(conn: nat)
    | Scan(id: nat, succeeds: bool, reach: nat)
    | SendRow(id: nat)
    | Drain(id: nat)
    | Unregister(id: nat)
    | Close(id: nat)

  // ----- The snapshot scan

  /** The first `k` events the history filter accepts. */
  function Page(log: seq<Event>, f: HistoryFilter, k: nat): seq<Event> {
    if log == [] || k == 0 then []
    else if f.Accepts(log[0].entity, log[0].times) then [log[0]] + Page(log[1..], f, k - 1)
    else Page(log[1..], f, k)
  }

  /** How many rows the scan asks for: the plan's limit, capped by the snapshot's size, at least one. */
  function Target(plan: Plan, size: nat): nat {
    Max(1, if plan.limit.Some? then Min(plan.limit.value, size) else size)
  }

  /** The sequences of the matching events of a page that lie in the snapshot. */
  function Wanted(page: seq<Event>, plan: Plan, start: nat, end: nat): seq<nat> {
    if page == [] then []
    else
      (if plan.filter(page[0]) == Match && start <= page[0].sequence < end then [page[0].sequence] else [])
      + Wanted(page[1..], plan, start, end)
  }

  /** The rows the replay sends when the page's budgets let the log through up to `reach`; a filter error on
      any event of the page drops the whole snapshot. */
  function SnapshotRows(log: seq<Event>, plan: Plan, start: nat, end: nat, reach: nat): seq<nat>
    requires start <= end
  {
    var page := Page(log[..Min(|log|, reach)], plan.history, Target(plan, end - start));
    if exists i :: 0 <= i < |page| && plan.filter(page[i]) == Error then [] else Wanted(page, plan, start, end)
  }

  // ----- Steps

  /** One committed event offered to one subscriber; a closed receiver is noticed only now. */
  function Offer(x: Session, e: Event): Session {
    if !x.active then x
    else if x.plan.filter(e) != Match then x.(seen := x.seen + 1)
    else if x.stage == Closed then x.(active := false)
    else if |x.queue| < QUEUE_SLOTS then x.(queue := x.queue + [e.sequence], seen := x.seen + 1)
    else x.(dropped := x.dropped + {e.sequence}, seen := x.seen + 1)
  }

  function OnSession(s: State, id: nat, x: Session): State {
    s.(sessions := s.sessions[id := x])
  }

  /** The effect of a step; a step that is not enabled changes nothing. */
  function Apply(s: State, a: Action): State {
    match a
    case Append(entity, times) =>
      var e := Event(|s.log|, entity, times);
      s.(log := s.log + [e], sessions := map id | id in s.sessions :: Offer(s.sessions[id], e))
    case Measure(conn, plan, fromNow, fromSequence) =>
      var now := |s.log|;
      var start := if fromNow then now else Min(if fromSequence.Some? then fromSequence.value else 0, now);
      s.(measured := s.measured[conn := Measured(plan, start, now)])
    case Register(conn) =>
      if conn !in s.measured then s
      else
        var m := s.measured[conn];
        var x := Session(m.plan, m.start, m.end, true, Registered, [], [], [], |s.log|, |s.log|, {}, [], []);
        s.(nextId := s.nextId + 1, measured := s.measured - {conn}, sessions := s.sessions[s.nextId := x])
    case Scan(id, succeeds, reach) =>
      if id !in s.sessions || s.sessions[id].stage != Registered then s
      else
        var x := s.sessions[id];
        var rows := if succeeds && x.start < x.end then SnapshotRows(s.log, x.plan, x.start, x.end, reach) else [];
        OnSession(s, id, x.(rows := rows, stage := Replaying))
    case SendRow(id) =>
      if id !in s.sessions || s.sessions[id].stage != Replaying then s
      else
        var x := s.sessions[id];
        if x.rows == [] then OnSession(s, id, x.(stage := Live))
        else
          OnSession(s, id, x.(wire := x.wire + [Record(x.rows[0], false)], rows := x.rows[1..],
                              replayed := x.replayed + [x.rows[0]]))
    case Drain(id) =>
      if id !in s.sessions || s.sessions[id].stage != Live || s.sessions[id].queue == [] then s
      else
        var x := s.sessions[id];
        OnSession(s, id, x.(wire := x.wire + [Record(x.queue[0], true)], queue := x.queue[1..],
                            delivered := x.delivered + [x.queue[0]]))
    case Unregister(id) =>
      if id !in s.sessions then s else OnSession(s, id, s.sessions[id].(active := false))
    case Close(id) =>
      if id !in s.sessions then s else OnSession(s, id, s.sessions[id].(stage := Closed))
  }

  const Empty := State([], 1, map[], map[])

  function Run(actions: seq<Action>): State {
    if actions == [] then Empty else Apply(Run(actions[..|actions| - 1]), actions[|actions| - 1])
  }

  // ----- What every interleaving keeps

  ghost predicate Increasing(s: seq<nat>) {
    forall i, j :: 0 <= i < j < |s| ==> s[i] < s[j]
  }

  ghost predicate Within(s: seq<nat>, lo: nat, hi: nat) {
    forall i :: 0 <= i < |s| ==> lo <= s[i] < hi
  }

  /** The matching events from `lo` up to `hi`, in order, without the dropped ones. */
  ghost function Surviving(log: seq<Event>, plan: Plan, lo: nat, hi: nat, dropped: set<nat>): seq<nat>
    requires lo <= hi <= |log|
    decreases hi
  {
    if lo == hi then []
    else
      Surviving(log, plan, lo, hi - 1, dropped)
      + if plan.filter(log[hi - 1]) == Match && hi - 1 !in dropped then [hi - 1] else []
  }

  function Tagged(s: seq<nat>, live: bool): (r: seq<Record>)
    ensures |r| == |s| && forall i :: 0 <= i < |s| ==> r[i] == Record(s[i], live)
  {
    if s == [] then [] else Tagged(s[..|s| - 1], live) + [Record(s[|s| - 1], live)]
  }

  ghost predicate GoodLog(log: seq<Event>) {
    forall i :: 0 <= i < |log| ==> log[i].sequence == i
  }

  ghost predicate Good(log: seq<Event>, x: Session) {
    && x.start <= x.end <= x.joined <= x.seen <= |log|
    && (x.active ==> x.seen == |log|)
    && x.wire == Tagged(x.replayed, false) + Tagged(x.delivered, true)
    && Increasing(x.replayed + x.rows) && Within(x.replayed + x.rows, x.start, x.end)
    && (x.stage in {Registered, Replaying} ==> x.delivered == [])
    && (x.stage == Registered ==> x.replayed == [] && x.rows == [])
    && (forall d :: d in x.dropped ==> x.joined <= d < x.seen && x.plan.filter(log[d]) == Match)
    && x.delivered + x.queue == Surviving(log, x.plan, x.joined, x.seen, x.dropped)
  }

  ghost predicate Inv(s: State) {
    && GoodLog(s.log)
    && (forall c :: c in s.measured ==> s.measured[c].start <= s.measured[c].end <= |s.log|)
    && (forall id :: id in s.sessions ==> id < s.nextId && Good(s.log, s.sessions[id]))
  }

  lemma {:induction false} SurvivingProps(log: seq<Event>, plan: Plan, lo: nat, hi: nat, dropped: set<nat>)
    requires lo <= hi <= |log|
    ensures var r := Surviving(log, plan, lo, hi, dropped);
            && Increasing(r) && Within(r, lo, hi)
            && forall q :: q in r <==> lo <= q < hi && plan.filter(log[q]) == Match && q !in dropped
    decreases hi
  {
    if lo < hi {
      SurvivingProps(log, plan, lo, hi - 1, dropped);
    }
  }

  /** Later events and later drops do not change what survived earlier. */
  lemma {:induction false} SurvivingExtends(log: seq<Event>, more: seq<Event>, plan: Plan, lo: nat, hi: nat,
                                            dropped: set<nat>, extra: set<nat>)
    requires lo <= hi <= |log| && forall d :: d in extra ==> d >= hi
    ensures Surviving(log + more, plan, lo, hi, dropped + extra) == Surviving(log, plan, lo, hi, dropped)
    decreases hi
  {
    if lo < hi {
      SurvivingExtends(log, more, plan, lo, hi - 1, dropped, extra);
    }
  }

  lemma OfferKeepsGood(log: seq<Event>, x: Session, e: Event)
    requires Good(log, x) && e.sequence == |log|
    ensures Good(log + [e], Offer(x, e))
  {
    hide Increasing, Within, Tagged;
    var y := Offer(x, e);
    SurvivingExtends(log, [e], x.plan, x.joined, x.seen, x.dropped, y.dropped - x.dropped);
    assert x.dropped + (y.dropped - x.dropped) == y.dropped;
    if y.seen == x.seen + 1 {
      assert (log + [e])[y.seen - 1] == e;
      assert y.delivered + y.queue == Surviving(log + [e], x.plan, x.joined, y.seen, y.dropped);
    }
  }

  lemma AppendKeepsInv(s: State, a: Action)
    requires Inv(s) && a.Append?
    ensures Inv(Apply(s, a))
  {
    hide Good, Offer;
    var e := Event(|s.log|, a.entity, a.times);
    var t := Apply(s, a);
    forall id | id in t.sessions
      ensures Good(t.log, t.sessions[id])
    {
      OfferKeepsGood(s.log, s.sessions[id], e);
    }
  }

  // ----- Snapshot rows are in order and in range

  ghost predicate Ordered(events: seq<Event>) {
    forall i, j :: 0 <= i < j < |events| ==> events[i].sequence < events[j].sequence
  }

  lemma {:induction false} PageInOrder(log: seq<Event>, f: HistoryFilter, k: nat)
    requires Ordered(log)
    ensures Ordered(Page(log, f, k)) && forall e :: e in Page(log, f, k) ==> e in log
  {
    if log != [] && k > 0 {
      var rest := log[1..];
      HeadIsFirst(log);
      if f.Accepts(log[0].entity, log[0].times) {
        PageInOrder(rest, f, k - 1);
        HeadJoins(log[0], Page(rest, f, k - 1));
      } else {
        PageInOrder(rest, f, k);
      }
    }
  }

  lemma HeadIsFirst(log: seq<Event>)
    requires log != [] && Ordered(log)
    ensures Ordered(log[1..]) && forall e :: e in log[1..] ==> e in log && log[0].sequence < e.sequence
  {
  }

  lemma HeadJoins(e: Event, page: seq<Event>)
    requires Ordered(page) && forall x :: x in page ==> e.sequence < x.sequence
    ensures Ordered([e] + page)
  {
    assert forall i :: 0 <= i < |page| ==> page[i] in page;
  }

  ghost predicate Delivers(page: seq<Event>, plan: Plan, start: nat, end: nat, q: nat) {
    exists e :: e in page && e.sequence == q && plan.filter(e) == Match && start <= q < end
  }

  lemma {:induction false} WantedExactly(page: seq<Event>, plan: Plan, start: nat, end: nat, q: nat)
    ensures q in Wanted(page, plan, start, end) <==> Delivers(page, plan, start, end, q)
  {
    if page != [] {
      WantedExactly(page[1..], plan, start, end, q);
      assert forall e :: e in page <==> e == page[0] || e in page[1..];
    }
  }

  lemma {:induction false} WantedInOrder(page: seq<Event>, plan: Plan, start: nat, end: nat)
    requires Ordered(page)
    ensures Increasing(Wanted(page, plan, start, end)) && Within(Wanted(page, plan, start, end), start, end)
  {
    if page != [] {
      var rest := page[1..];
      var r := Wanted(rest, plan, start, end);
      WantedInOrder(rest, plan, start, end);
      forall i | 0 <= i < |r|
        ensures page[0].sequence < r[i]
      {
        WantedExactly(rest, plan, start, end, r[i]);
        assert r[i] in r;
      }
    }
  }

  lemma SnapshotInOrder(log: seq<Event>, plan: Plan, start: nat, end: nat, reach: nat)
    requires GoodLog(log) && start <= end
    ensures var rows := SnapshotRows(log, plan, start, end, reach); Increasing(rows) && Within(rows, start, end)
  {
    hide Page, Wanted, Target;
    var front := log[..Min(|log|, reach)];
    assert Ordered(front);
    PageInOrder(front, plan.history, Target(plan, end - start));
    WantedInOrder(Page(front, plan.history, Target(plan, end - start)), plan, start, end);
  }

  // ----- The other steps

  lemma ScanKeepsGood(log: seq<Event>, x: Session, succeeds: bool, reach: nat)
    requires GoodLog(log) && Good(log, x) && x.stage == Registered
    ensures var rows := if succeeds && x.start < x.end then SnapshotRows(log, x.plan, x.start, x.end, reach) else [];
            Good(log, x.(rows := rows, stage := Replaying))
  {
    hide SnapshotRows, Surviving, Tagged;
    SnapshotInOrder(log, x.plan, x.start, x.end, reach);
    var rows := if succeeds && x.start < x.end then SnapshotRows(log, x.plan, x.start, x.end, reach) else [];
    assert [] + rows == rows;
  }

  lemma SendRowKeepsGood(log: seq<Event>, x: Session)
    requires Good(log, x) && x.stage == Replaying && x.rows != []
    ensures Good(log, x.(wire := x.wire + [Record(x.rows[0], false)], rows := x.rows[1..],
                         replayed := x.replayed + [x.rows[0]]))
  {
    hide Surviving, Tagged, Increasing, Within;
    TaggedAppend(x.replayed, x.rows[0], false);
    TaggedNothing();
    assert (x.replayed + [x.rows[0]]) + x.rows[1..] == x.replayed + x.rows;
  }

  lemma TaggedNothing()
    ensures Tagged([], true) == []
  {
  }

  lemma DrainKeepsGood(log: seq<Event>, x: Session)
    requires Good(log, x) && x.stage == Live && x.queue != []
    ensures Good(log, x.(wire := x.wire + [Record(x.queue[0], true)], queue := x.queue[1..],
                         delivered := x.delivered + [x.queue[0]]))
  {
    hide Surviving, Increasing, Within, Tagged;
    TaggedAppend(x.delivered, x.queue[0], true);
    assert (x.delivered + [x.queue[0]]) + x.queue[1..] == x.delivered + x.queue;
    assert (Tagged(x.replayed, false) + Tagged(x.delivered, true)) + [Record(x.queue[0], true)]
        == Tagged(x.replayed, false) + (Tagged(x.delivered, true) + [Record(x.queue[0], true)]);
  }

  lemma TaggedAppend(s: seq<nat>, q: nat, live: bool)
    ensures Tagged(s + [q], live) == Tagged(s, live) + [Record(q, live)]
  {
    assert (s + [q])[..|s|] == s;
  }

  lemma RegisterKeepsGood(log: seq<Event>, m: Measured)
    requires m.start <= m.end <= |log|
    ensures Good(log, Session(m.plan, m.start, m.end, true, Registered, [], [], [], |log|, |log|, {}, [], []))
  {
  }

  lemma SessionStepKeepsInv(s: State, a: Action)
    requires Inv(s) && (a.Scan? || a.SendRow? || a.Drain? || a.Unregister? || a.Close?)
    ensures Inv(Apply(s, a))
  {
    hide Surviving, Increasing, Within, Tagged, SnapshotRows, GoodLog, Good;
    if a.id in s.sessions {
      var x := s.sessions[a.id];
      match a {
        case Scan(id, succeeds, reach) =>
          if x.stage == Registered {
            ScanKeepsGood(s.log, x, succeeds, reach);
          }
        case SendRow(id) =>
          if x.stage == Replaying && x.rows != [] {
            SendRowKeepsGood(s.log, x);
          } else if x.stage == Replaying {
            LeavingKeepsGood(s.log, x);
          }
        case Drain(id) =>
          if x.stage == Live && x.queue != [] {
            DrainKeepsGood(s.log, x);
          }
        case _ =>
          LeavingKeepsGood(s.log, x);
      }
    }
  }

  lemma LeavingKeepsGood(log: seq<Event>, x: Session)
    requires Good(log, x)
    ensures Good(log, x.(active := false)) && Good(log, x.(stage := Closed)) && Good(log, x.(stage := Live))
  {
    hide Surviving, Increasing, Within, Tagged;
  }

  lemma ApplyKeepsInv(s: State, a: Action)
    requires Inv(s)
    ensures Inv(Apply(s, a))
  {
    match a {
      case Append(_, _) => AppendKeepsInv(s, a);
      case Measure(_, _, _, _) =>
      case Register(conn) =>
        if conn in s.measured {
          RegisterKeepsGood(s.log, s.measured[conn]);
        }
      case _ => SessionStepKeepsInv(s, a);
    }
  }

  /** Over every interleaving of steps. */
  lemma {:induction false} RunInv(actions: seq<Action>)
    ensures Inv(Run(actions))
  {
    hide Inv, Apply;
    if actions == [] {
      EmptyInv();
    } else {
      RunInv(actions[..|actions| - 1]);
      ApplyKeepsInv(Run(actions[..|actions| - 1]), actions[|actions| - 1]);
    }
  }

  lemma EmptyInv()
    ensures Inv(Empty)
  {
  }

  // ----- What a subscriber receives

  /** Strictly increasing sequences, so each at most once; snapshot records before live ones, inside
      the announced snapshot; live records after it, and only matching events. */
  ghost predicate ProperDelivery(log: seq<Event>, x: Session) {
    && (forall i, j :: 0 <= i < j < |x.wire| ==> x.wire[i].sequence < x.wire[j].sequence)
    && (forall i, j :: 0 <= i < j < |x.wire| && x.wire[i].live ==> x.wire[j].live)
    && (forall i :: 0 <= i < |x.wire| && !x.wire[i].live ==> x.start <= x.wire[i].sequence < x.end)
    && (forall i :: 0 <= i < |x.wire| && x.wire[i].live ==>
          && x.end <= x.wire[i].sequence < |log|
          && x.plan.filter(log[x.wire[i].sequence]) == Match)
  }

  lemma WireAt(a: seq<nat>, b: seq<nat>, i: nat)
    requires i < |a| + |b|
    ensures (Tagged(a, false) + Tagged(b, true))[i] == if i < |a| then Record(a[i], false) else Record(b[i - |a|], true)
  {
  }

  lemma WireInOrder(a: seq<nat>, b: seq<nat>, bound: nat, i: nat, j: nat)
    requires Increasing(a) && Increasing(b) && i < j < |a| + |b|
    requires forall k :: 0 <= k < |a| ==> a[k] < bound
    requires forall k :: 0 <= k < |b| ==> bound <= b[k]
    ensures var w := Tagged(a, false) + Tagged(b, true);
            w[i].sequence < w[j].sequence && (w[i].live ==> w[j].live)
  {
    WireAt(a, b, i);
    WireAt(a, b, j);
  }

  lemma LivePart(log: seq<Event>, x: Session)
    requires Good(log, x)
    ensures Increasing(x.delivered)
    ensures forall i :: 0 <= i < |x.delivered| ==>
              x.joined <= x.delivered[i] < x.seen && x.plan.filter(log[x.delivered[i]]) == Match
  {
    hide Surviving, Tagged;
    var r := Surviving(log, x.plan, x.joined, x.seen, x.dropped);
    SurvivingProps(log, x.plan, x.joined, x.seen, x.dropped);
    assert forall i :: 0 <= i < |x.delivered| ==> x.delivered[i] == r[i] && x.delivered[i] in r;
  }

  lemma SnapshotPart(log: seq<Event>, x: Session)
    requires Good(log, x)
    ensures Increasing(x.replayed) && Within(x.replayed, x.start, x.end)
  {
    hide Surviving, Tagged;
    assert forall i :: 0 <= i < |x.replayed| ==> x.replayed[i] == (x.replayed + x.rows)[i];
  }

  lemma GoodIsProper(log: seq<Event>, x: Session)
    requires Good(log, x)
    ensures ProperDelivery(log, x)
  {
    hide Surviving, Tagged;
    LivePart(log, x);
    SnapshotPart(log, x);
    forall i | 0 <= i < |x.wire|
      ensures x.wire[i] == if i < |x.replayed| then Record(x.replayed[i], false)
                           else Record(x.delivered[i - |x.replayed|], true)
    {
      WireAt(x.replayed, x.delivered, i);
    }
    forall i, j | 0 <= i < j < |x.wire|
      ensures x.wire[i].sequence < x.wire[j].sequence && (x.wire[i].live ==> x.wire[j].live)
    {
      WireInOrder(x.replayed, x.delivered, x.end, i, j);
    }
  }

  lemma EveryRunDeliversProperly(actions: seq<Action>, id: nat)
    requires id in Run(actions).sessions
    ensures ProperDelivery(Run(actions).log, Run(actions).sessions[id])
  {
    hide Run, Good, ProperDelivery;
    RunInv(actions);
    GoodIsProper(Run(actions).log, Run(actions).sessions[id]);
  }

  /** Every matching event from the snapshot's end on has been delivered live or is queued. */
  ghost predicate NoGaps(log: seq<Event>, x: Session) {
    forall q :: x.end <= q < |log| && x.plan.filter(log[q]) == Match ==> q in x.delivered || q in x.queue
  }

  /** No matching event fell between the length read and the registration. */
  ghost predicate NothingBetween(log: seq<Event>, x: Session) {
    forall q :: x.end <= q < x.joined && q < |log| ==> x.plan.filter(log[q]) != Match
  }

  /** While a subscription is registered, its live part has no gaps exactly when nothing matching fell
      between length read and registration and no offer met a full queue. */
  lemma GaplessExactly(actions: seq<Action>, id: nat)
    requires id in Run(actions).sessions && Run(actions).sessions[id].active
    ensures var s := Run(actions); var x := s.sessions[id];
            NoGaps(s.log, x) <==> NothingBetween(s.log, x) && x.dropped == {}
  {
    hide Run;
    RunInv(actions);
    SessionGapless(Run(actions).log, Run(actions).sessions[id]);
  }

  lemma SessionGapless(log: seq<Event>, x: Session)
    requires Good(log, x) && x.active
    ensures NoGaps(log, x) <==> NothingBetween(log, x) && x.dropped == {}
  {
    hide Surviving, Tagged, Increasing, Within;
    var r := Surviving(log, x.plan, x.joined, x.seen, x.dropped);
    SurvivingProps(log, x.plan, x.joined, x.seen, x.dropped);
    assert forall q :: q in x.delivered || q in x.queue <==> q in r;
    if d :| d in x.dropped {
      assert d !in r;
      assert !NoGaps(log, x);
    }
    if q :| x.end <= q < x.joined && q < |log| && x.plan.filter(log[q]) == Match {
      assert q !in r;
      assert !NoGaps(log, x);
    }
  }

  // ----- How much of the snapshot is replayed

  /** How many events before position `q` the history filter accepts. */
  ghost function Rank(log: seq<Event>, f: HistoryFilter, q: nat): nat
    requires q <= |log|
  {
    if q == 0 then 0
    else Rank(log, f, q - 1) + if f.Accepts(log[q - 1].entity, log[q - 1].times) then 1 else 0
  }

  lemma {:induction false} RankShift(log: seq<Event>, f: HistoryFilter, q: nat)
    requires 0 < q <= |log|
    ensures Rank(log, f, q) == Rank(log[1..], f, q - 1) + if f.Accepts(log[0].entity, log[0].times) then 1 else 0
  {
    if q > 1 {
      RankShift(log, f, q - 1);
      assert log[1..][q - 2] == log[q - 1];
    }
  }

  /** An event is on the page exactly when it is accepted and fewer than `k` accepted events precede it. */
  lemma {:induction false} PageExactly(log: seq<Event>, f: HistoryFilter, k: nat, q: nat)
    requires Ordered(log) && q < |log|
    ensures log[q] in Page(log, f, k) <==> f.Accepts(log[q].entity, log[q].times) && Rank(log, f, q) < k
  {
    hide Rank;
    var rest := log[1..];
    assert forall e :: e in rest ==> log[0].sequence < e.sequence;
    PageInOrder(log, f, k);
    if k > 0 {
      PageInOrder(rest, f, k - 1);
      PageInOrder(rest, f, k);
      if q == 0 {
        RankZero(log, f);
      } else {
        assert rest[q - 1] == log[q];
        RankShift(log, f, q);
        PageExactly(rest, f, k - 1, q - 1);
        PageExactly(rest, f, k, q - 1);
      }
    }
  }

  lemma RankZero(log: seq<Event>, f: HistoryFilter)
    ensures Rank(log, f, 0) == 0
  {
  }

  lemma {:induction false} RankPrefix(log: seq<Event>, f: HistoryFilter, n: nat, q: nat)
    requires q <= n <= |log|
    ensures Rank(log[..n], f, q) == Rank(log, f, q)
  {
    if q > 0 {
      RankPrefix(log, f, n, q - 1);
    }
  }

  /** Position `p` is on the page of `k` rows that reaches up to `reach`. */
  ghost predicate OnPage(log: seq<Event>, f: HistoryFilter, k: nat, reach: nat, p: nat)
    requires p < |log|
  {
    p < reach && f.Accepts(log[p].entity, log[p].times) && Rank(log, f, p) < k
  }

  /** The filter fails on no event of the page. */
  ghost predicate Clean(log: seq<Event>, plan: Plan, k: nat, reach: nat) {
    forall p :: 0 <= p < |log| && OnPage(log, plan.history, k, reach, p) ==> plan.filter(log[p]) != Error
  }

  lemma PageHolds(log: seq<Event>, f: HistoryFilter, k: nat, reach: nat, p: nat)
    requires GoodLog(log) && p < |log|
    ensures log[p] in Page(log[..Min(|log|, reach)], f, k) <==> OnPage(log, f, k, reach, p)
  {
    hide Page, Rank;
    var n := Min(|log|, reach);
    var front := log[..n];
    assert Ordered(front);
    PageInOrder(front, f, k);
    if p < n {
      assert front[p] == log[p];
      PageExactly(front, f, k, p);
      RankPrefix(log, f, n, p);
    } else {
      assert forall e :: e in front ==> e.sequence < n;
    }
  }

  lemma PageFromLog(log: seq<Event>, f: HistoryFilter, k: nat, reach: nat, e: Event)
    requires GoodLog(log) && e in Page(log[..Min(|log|, reach)], f, k)
    ensures e.sequence < |log| && log[e.sequence] == e
  {
    hide Page;
    var front := log[..Min(|log|, reach)];
    assert Ordered(front);
    PageInOrder(front, f, k);
    assert e in front;
  }

  lemma CleanExactly(log: seq<Event>, plan: Plan, k: nat, reach: nat)
    requires GoodLog(log)
    ensures var page := Page(log[..Min(|log|, reach)], plan.history, k);
            Clean(log, plan, k, reach) <==> !exists i :: 0 <= i < |page| && plan.filter(page[i]) == Error
  {
    hide Page, OnPage;
    var page := Page(log[..Min(|log|, reach)], plan.history, k);
    forall p | 0 <= p < |log|
      ensures log[p] in page <==> OnPage(log, plan.history, k, reach, p)
    {
      PageHolds(log, plan.history, k, reach, p);
    }
    if i :| 0 <= i < |page| && plan.filter(page[i]) == Error {
      PageFromLog(log, plan.history, k, reach, page[i]);
      assert log[page[i].sequence] in page;
      assert OnPage(log, plan.history, k, reach, page[i].sequence);
    }
  }

  /** Which events a replay sends. The row limit counts accepted events from the start of the log, not from the
      snapshot's start, and one filter error on the page suppresses everything. */
  lemma ReplayExactly(log: seq<Event>, plan: Plan, start: nat, end: nat, reach: nat, q: nat)
    requires GoodLog(log) && start <= end <= |log|
    ensures q in SnapshotRows(log, plan, start, end, reach) <==>
            && start <= q < end && plan.filter(log[q]) == Match
            && OnPage(log, plan.history, Target(plan, end - start), reach, q)
            && Clean(log, plan, Target(plan, end - start), reach)
  {
    hide Page, Wanted, Target, OnPage, Clean;
    var k := Target(plan, end - start);
    var page := Page(log[..Min(|log|, reach)], plan.history, k);
    CleanExactly(log, plan, k, reach);
    WantedExactly(page, plan, start, end, q);
    forall e | e in page
      ensures e.sequence < |log| && log[e.sequence] == e
    {
      PageFromLog(log, plan.history, k, reach, e);
    }
    if q < |log| {
      PageHolds(log, plan.history, k, reach, q);
      assert Delivers(page, plan, start, end, q) <==>
        log[q] in page && plan.filter(log[q]) == Match && start <= q < end;
    }
  }

  /** A plan without entity, time or cut-off conditions and without a limit. */
  ghost predicate Unrestricted(plan: Plan) {
    plan.limit.None? && plan.history == HistoryFilter(None, None, None)
  }

  lemma {:induction false} RankOfAll(log: seq<Event>, q: nat)
    requires q <= |log|
    ensures Rank(log, HistoryFilter(None, None, None), q) == q
  {
    if q > 0 {
      RankOfAll(log, q - 1);
    }
  }

  /** Every matching event of the snapshot is sent. */
  ghost predicate FullReplay(log: seq<Event>, plan: Plan, start: nat, end: nat, reach: nat)
    requires start <= end <= |log|
  {
    forall q :: start <= q < end && plan.filter(log[q]) == Match ==> q in SnapshotRows(log, plan, start, end, reach)
  }

  /** The replay of an unrestricted plan is complete exactly when every matching event of the snapshot lies
      within the snapshot's own size and within the page's reach, and no filter error is met on the way. From
      sequence 0 the size is no condition; from a later start it excludes the newest `start` events. */
  lemma FullReplayExactly(log: seq<Event>, plan: Plan, start: nat, end: nat, reach: nat)
    requires GoodLog(log) && start < end <= |log| && Unrestricted(plan)
    ensures FullReplay(log, plan, start, end, reach) <==>
            forall q :: start <= q < end && plan.filter(log[q]) == Match ==>
              q < end - start && q < reach && Clean(log, plan, end - start, reach)
  {
    hide SnapshotRows, Rank, Clean;
    forall q | start <= q < end && plan.filter(log[q]) == Match
      ensures q in SnapshotRows(log, plan, start, end, reach)
         <==> q < end - start && q < reach && Clean(log, plan, end - start, reach)
    {
      ReplayExactly(log, plan, start, end, reach, q);
      RankOfAll(log, q);
    }
  }

  /** Replaying from any positive sequence loses the newest event of the snapshot, whatever the page's reach. */
  lemma ReplayFromLosesNewest(log: seq<Event>, plan: Plan, start: nat, reach: nat)
    requires GoodLog(log) && 0 < start < |log| && Unrestricted(plan)
    ensures |log| - 1 !in SnapshotRows(log, plan, start, |log|, reach)
  {
    hide SnapshotRows, Rank, Clean;
    ReplayExactly(log, plan, start, |log|, reach, |log| - 1);
    RankOfAll(log, |log| - 1);
  }

  // ----- How far a page reaches

  lemma {:induction false} PageIsMatching(log: seq<Event>, f: HistoryFilter, accepts: Event -> bool, k: nat)
    requires forall e :: accepts(e) <==> f.Accepts(e.entity, e.times)
    ensures Page(log, f, k) == Matching(log, accepts, k)
  {
    if log != [] && k > 0 {
      PageIsMatching(log[1..], f, accepts, if accepts(log[0]) then k - 1 else k);
    }
  }

  /** The store's scan behind a replay yields the page within reach, or refuses the first frame it would read. */
  method ScanPage(log: seq<Event>, frames: seq<Frame>, f: HistoryFilter, accepts: Event -> bool, k: nat)
    returns (r: Result<seq<Event>, Frame>)
    requires Events(frames) == |log| && NoEmptyFrame(frames) && k > 0
    requires forall e :: accepts(e) <==> f.Accepts(e.entity, e.times)
    requires SkipsSafely(log, frames, accepts, 0)
    ensures var first := FirstRead(frames);
            r == if TooLarge(first, MAX_SCANNED, MAX_BYTES) then Err(first.value)
                 else Ok(Page(log[..Reach(frames, MAX_SCANNED, MAX_BYTES)], f, k))
  {
    hide Page, Matching, SkipsSafely;
    var reach := Reach(frames, MAX_SCANNED, MAX_BYTES);
    PageIsMatching(log[..reach], f, accepts, k);
    if log == [] {
      assert frames == [];
      PageIsMatching([], f, accepts, k);
      NoneMatching([], accepts, k);
      return Ok([]);
    }
    assert frames[0..] == frames && log[0..reach] == log[..reach];
    r := ReadPage(log, frames, accepts, 0, k, MAX_SCANNED, MAX_BYTES);
  }

  /** From sequence 0, an unrestricted replay whose events all match is complete exactly when the frames up to the
      end of the log fit the scan and byte budgets of one page. */
  lemma ReplayFromStartExactly(log: seq<Event>, plan: Plan, frames: seq<Frame>)
    requires GoodLog(log) && log != [] && Unrestricted(plan)
    requires forall i :: 0 <= i < |log| ==> plan.filter(log[i]) == Match
    requires NoEmptyFrame(frames) && Events(frames) == |log|
    ensures FullReplay(log, plan, 0, |log|, Reach(frames, MAX_SCANNED, MAX_BYTES))
       <==> Fits(frames, MAX_SCANNED, MAX_BYTES)
  {
    hide SnapshotRows, Reach, FullReplay;
    var reach := Reach(frames, MAX_SCANNED, MAX_BYTES);
    ReachesEndExactly(frames, MAX_SCANNED, MAX_BYTES);
    FullReplayExactly(log, plan, 0, |log|, reach);
    if reach < |log| {
      assert 0 <= |log| - 1 < |log| && plan.filter(log[|log| - 1]) == Match;
    }
  }
}
