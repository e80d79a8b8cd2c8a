/** The hub that broadcasts a committed batch to every subscriber. */
module SubscriptionHub {
  import opened Core
  import opened Subscription

  /** A batch offered to one subscriber, event by event. */
  function OfferAll(x: Session, events: seq<Event>): Session {
    if events == [] then x else Offer(OfferAll(x, events[..|events| - 1]), events[|events| - 1])
  }

  lemma {:induction false} OfferAllSplits(x: Session, a: seq<Event>, b: seq<Event>)
    ensures OfferAll(x, a + b) == OfferAll(OfferAll(x, a), b)
  {
    if b == [] {
      assert a + b == a;
    } else {
      var all := a + b;
      assert all[..|all| - 1] == a + b[..|b| - 1] && all[|all| - 1] == b[|b| - 1];
      OfferAllSplits(x, a, b[..|b| - 1]);
    }
  }

  /** A removed subscriber is offered nothing more. */
  lemma {:induction false} InactiveStays(x: Session, events: seq<Event>)
    requires !x.active
    ensures OfferAll(x, events) == x
  {
    if events != [] {
      InactiveStays(x, events[..|events| - 1]);
    }
  }

  /** The registered subscribers after a batch: those found disconnected are gone. */
  function Dispatch(subs: map<nat, Session>, events: seq<Event>): map<nat, Session> {
    map id | id in subs && OfferAll(subs[id], events).active :: OfferAll(subs[id], events)
  }

  /** The subscribers registered in a state of the protocol. */
  function Registered(s: State): map<nat, Session> {
    map id | id in s.sessions && s.sessions[id].active :: s.sessions[id]
  }

  /** The events a batch of appends commits. */
  function Committed(log: seq<Event>, batch: seq<(EntityId, EventTimes)>): (r: seq<Event>)
    ensures |r| == |batch|
  {
    seq(|batch|, i requires 0 <= i < |batch| => Event(|log| + i, batch[i].0, batch[i].1))
  }

  function AppendAll(s: State, batch: seq<(EntityId, EventTimes)>): State {
    if batch == [] then s
    else
      var last := batch[|batch| - 1];
      Apply(AppendAll(s, batch[..|batch| - 1]), Append(last.0, last.1))
  }

  lemma {:induction false} AppendAllSessions(s: State, batch: seq<(EntityId, EventTimes)>)
    ensures var t := AppendAll(s, batch); var es := Committed(s.log, batch);
            && t.log == s.log + es && t.sessions.Keys == s.sessions.Keys
            && forall id :: id in s.sessions ==> t.sessions[id] == OfferAll(s.sessions[id], es)
  {
    hide Offer;
    var es := Committed(s.log, batch);
    if batch == [] {
      assert es == [];
    } else {
      var init := batch[..|batch| - 1];
      AppendAllSessions(s, init);
      assert es[..|es| - 1] == Committed(s.log, init);
      assert es == Committed(s.log, init) + [es[|es| - 1]];
    }
  }

  /** Dispatching a whole batch at once is the same as appending its events one by one. */
  lemma DispatchIsAppends(s: State, batch: seq<(EntityId, EventTimes)>)
    ensures Registered(AppendAll(s, batch)) == Dispatch(Registered(s), Committed(s.log, batch))
  {
    hide Offer, OfferAll, Committed, AppendAll;
    var t, es := AppendAll(s, batch), Committed(s.log, batch);
    AppendAllSessions(s, batch);
    forall id | id in s.sessions
      ensures id in Registered(t) <==> id in Dispatch(Registered(s), es)
    {
      if !s.sessions[id].active {
        InactiveStays(s.sessions[id], es);
      } else {
        assert id in Registered(s);
      }
    }
    assert Registered(t).Keys == Dispatch(Registered(s), es).Keys;
  }

  class Hub {
    var nextId: nat
    var subscribers: map<nat, Session>

    constructor ()
      ensures nextId == 1 && subscribers == map[]
    {
      nextId, subscribers := 1, map[];
    }

    method Register(m: Measured, logLength: nat) returns (id: nat)
      modifies this
      ensures id == old(nextId) && nextId == id + 1
      ensures subscribers == old(subscribers)[id := Joined(m, logLength)]
    {
      id := nextId;
      nextId := nextId + 1;
      subscribers := subscribers[id := Joined(m, logLength)];
    }

    method Unregister(id: nat) returns (known: bool)
      modifies this`subscribers
      ensures known <==> id in old(subscribers)
      ensures subscribers == old(subscribers) - {id}
    {
      known := id in subscribers;
      subscribers := subscribers - {id};
    }

    /** Offers every event to every subscriber, then removes the subscribers found disconnected. */
    method DispatchEvents(events: seq<Event>)
      requires forall id :: id in subscribers ==> subscribers[id].active
      modifies this`subscribers
      ensures subscribers == Dispatch(old(subscribers), events)
    {
      hide OfferAll;
      ghost var before := subscribers;
      if events == [] {
        NothingOffered(before);
        return;
      }
      var offered: map<nat, Session> := map[];
      var disconnected: set<nat> := {};
      var todo := subscribers.Keys;
      while todo != {}
        invariant subscribers == before && todo <= before.Keys
        invariant offered.Keys == before.Keys - todo
        invariant forall id :: id in offered ==> offered[id] == OfferAll(before[id], events)
        invariant disconnected == set id | id in offered && !offered[id].active
        decreases todo
      {
        var id := Pick(todo);
        todo := todo - {id};
        var x := OfferBatch(subscribers[id], events);
        offered := offered[id := x];
        if !x.active {
          disconnected := disconnected + {id};
        }
      }
      subscribers := offered - disconnected;
    }

    /** One subscriber: stops at the first send that finds the receiver gone. */
    method OfferBatch(x: Session, events: seq<Event>) returns (y: Session)
      requires x.active
      ensures y == OfferAll(x, events)
    {
      hide Offer;
      y := x;
      for i := 0 to |events|
        invariant y.active && y == OfferAll(x, events[..i])
      {
        assert events[..i + 1][..i] == events[..i];
        y := Offer(y, events[i]);
        if !y.active {
          assert events == events[..i + 1] + events[i + 1..];
          OfferAllSplits(x, events[..i + 1], events[i + 1..]);
          InactiveStays(y, events[i + 1..]);
          return;
        }
      }
      assert events[..|events|] == events;
    }
  }

  /** A subscription as it starts, with an empty queue. */
  function Joined(m: Measured, logLength: nat): Session {
    Session(m.plan, m.start, m.end, true, Stage.Registered, [], [], [], logLength, logLength, {}, [], [])
  }

  lemma NothingOffered(subs: map<nat, Session>)
    requires forall id :: id in subs ==> subs[id].active
    ensures Dispatch(subs, []) == subs
  {
  }
}
