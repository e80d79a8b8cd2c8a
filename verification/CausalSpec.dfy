/** The causal graph as a value: what registering an event does to it, and what every run keeps. */
module CausalSpec {
  import opened Core
  import opened Digraph

  /** `causes` lists the direct causes of an event, `effects` the direct effects. */
  datatype Graph = Graph(causes: Adj<EventId>, effects: Adj<EventId>)

  ghost predicate StrictlySorted(s: seq<EventId>) {
    forall i, j :: 0 <= i < j < |s| ==> s[i].Less(s[j])
  }

  function Insert(e: EventId, s: seq<EventId>): (r: seq<EventId>)
    requires StrictlySorted(s)
    ensures StrictlySorted(r)
    ensures forall x :: x in r <==> x == e || x in s
  {
    if s == [] then [e]
    else if e.Less(s[0]) then [e] + s
    else if e == s[0] then s
    else
      var t := Insert(e, s[1..]);
      assert forall x :: x in t ==> s[0].Less(x);
      [s[0]] + t
  }

  /** Sorting and removing duplicates. */
  function Normalize(s: seq<EventId>): (r: seq<EventId>)
    ensures StrictlySorted(r)
    ensures forall x :: x in r <==> x in s
  {
    if s == [] then [] else Insert(s[0], Normalize(s[1..]))
  }

  /** `event` becomes an effect of every node of `cs`, unless it already was one. */
  function Link(effects: Adj<EventId>, cs: seq<EventId>, event: EventId): Adj<EventId> {
    if cs == [] then effects
    else
      var e := Link(effects, cs[..|cs| - 1], event);
      var c := cs[|cs| - 1];
      e[c := if event in Out(e, c) then Out(e, c) else Out(e, c) + [event]]
  }

  lemma {:induction false} LinkRow(effects: Adj<EventId>, cs: seq<EventId>, event: EventId, a: EventId)
    ensures Out(Link(effects, cs, event), a) ==
            if a in cs && event !in Out(effects, a) then Out(effects, a) + [event] else Out(effects, a)
  {
    if cs != [] {
      LinkRow(effects, cs[..|cs| - 1], event, a);
      assert cs == cs[..|cs| - 1] + [cs[|cs| - 1]];
    }
  }

  /** Some declared cause already has `event` among its ancestors (or is `event`). */
  ghost predicate Rejects(g: Graph, event: EventId, declared: seq<EventId>) {
    exists c :: c in declared && Reaches(g.causes, c, event)
  }

  lemma RejectedBy(g: Graph, event: EventId, declared: seq<EventId>, c: EventId)
    requires c in Normalize(declared) && Reaches(g.causes, c, event)
    ensures Rejects(g, event, declared) && c in declared
  {
  }

  lemma SmallerIsEarlier(cs: seq<EventId>, k: nat)
    requires StrictlySorted(cs) && k < |cs|
    ensures forall c :: c in cs && c.Less(cs[k]) ==> c in cs[..k]
  {
    assert forall j :: k <= j < |cs| ==> !cs[j].Less(cs[k]);
    forall c | c in cs && c.Less(cs[k])
      ensures c in cs[..k]
    {
      var j :| 0 <= j < |cs| && cs[j] == c;
      assert cs[..k][j] == c;
    }
  }

  lemma NotRejected(g: Graph, event: EventId, declared: seq<EventId>)
    requires forall c :: c in Normalize(declared) ==> !Reaches(g.causes, c, event)
    ensures !Rejects(g, event, declared)
  {
  }

  function Accepted(g: Graph, event: EventId, declared: seq<EventId>): Graph {
    var cs := Normalize(declared);
    var e := Link(g.effects, cs, event);
    Graph(g.causes[event := cs], e[event := Out(e, event)])
  }

  /** One registration, accepted or rejected. */
  ghost function Add(g: Graph, event: EventId, declared: seq<EventId>): Graph {
    if Rejects(g, event, declared) then g else Accepted(g, event, declared)
  }

  type Call = (EventId, seq<EventId>)

  ghost function Run(calls: seq<Call>): Graph {
    if calls == [] then Graph(map[], map[])
    else
      var last := calls[|calls| - 1];
      Add(Run(calls[..|calls| - 1]), last.0, last.1)
  }

  /** What every reachable graph satisfies, re-registrations included. */
  ghost predicate Sound(g: Graph) {
    && Acyclic(g.causes)
    && (forall e :: StrictlySorted(Out(g.causes, e)))
    && (forall e :: NoDuplicates(Out(g.effects, e)))
    && (forall a, b :: a in Out(g.causes, b) ==> b in Out(g.effects, a))
    && (forall a, b :: b in Out(g.effects, a) ==> a != b && b in g.causes)
  }

  lemma AcceptedRows(g: Graph, event: EventId, declared: seq<EventId>, a: EventId)
    ensures Out(Accepted(g, event, declared).causes, a) ==
            if a == event then Normalize(declared) else Out(g.causes, a)
    ensures Out(Accepted(g, event, declared).effects, a) ==
            if a in declared && event !in Out(g.effects, a) then Out(g.effects, a) + [event]
            else Out(g.effects, a)
  {
    LinkRow(g.effects, Normalize(declared), event, a);
  }

  lemma AcceptedEdge(g: Graph, event: EventId, declared: seq<EventId>, a: EventId, b: EventId)
    requires Sound(g) && event !in declared
    ensures var h := Accepted(g, event, declared);
            && (a in Out(h.causes, b) ==> b in Out(h.effects, a))
            && (b in Out(h.effects, a) ==> a != b && b in h.causes)
  {
    var h := Accepted(g, event, declared);
    AcceptedRows(g, event, declared, a);
    AcceptedRows(g, event, declared, b);
    assert h.causes.Keys == g.causes.Keys + {event};
    hide Accepted, Acyclic;
    if b in Out(h.effects, a) {
      assert b in Out(g.effects, a) || (b == event && a in declared);
    }
    if a in Out(h.causes, b) {
      assert a in Out(g.causes, b) || (b == event && a in declared);
    }
  }

  lemma AddKeepsSound(g: Graph, event: EventId, declared: seq<EventId>)
    requires Sound(g)
    ensures Sound(Add(g, event, declared))
  {
    if !Rejects(g, event, declared) {
      var h := Accepted(g, event, declared);
      ReplaceKeepsAcyclic(g.causes, event, Normalize(declared));
      assert event !in declared by {
        assert Steps(g.causes, event, event, 0);
      }
      forall e
        ensures StrictlySorted(Out(h.causes, e)) && NoDuplicates(Out(h.effects, e))
      {
        AcceptedRows(g, event, declared, e);
      }
      forall a, b
        ensures a in Out(h.causes, b) ==> b in Out(h.effects, a)
        ensures b in Out(h.effects, a) ==> a != b && b in h.causes
      {
        AcceptedEdge(g, event, declared, a, b);
      }
    }
  }

  /** Over every run of registrations the causal relation stays acyclic. */
  lemma {:induction false} RunSound(calls: seq<Call>)
    ensures Sound(Run(calls))
  {
    if calls == [] {
      assert Acyclic<EventId>(map[]) by {
        forall e: EventId, n: nat | n > 0
          ensures !Steps(map[], e, e, n)
        {
        }
      }
    } else {
      var last := calls[|calls| - 1];
      RunSound(calls[..|calls| - 1]);
      AddKeepsSound(Run(calls[..|calls| - 1]), last.0, last.1);
    }
  }

  /** The check rejects exactly the registrations that would close a cycle. */
  lemma RejectsExactlyCycles(g: Graph, event: EventId, declared: seq<EventId>)
    requires Sound(g)
    ensures Rejects(g, event, declared) <==> !Acyclic(g.causes[event := Normalize(declared)])
  {
    if Rejects(g, event, declared) {
      var c :| c in declared && Reaches(g.causes, c, event);
      ReplaceMakesCycle(g.causes, event, Normalize(declared), c);
    } else {
      ReplaceKeepsAcyclic(g.causes, event, Normalize(declared));
    }
  }

  /** `effects` is the converse of `causes` afterwards exactly when no earlier cause was dropped. */
  lemma ConverseAfterAdd(g: Graph, event: EventId, declared: seq<EventId>)
    requires Sound(g) && Converse(g.causes, g.effects) && !Rejects(g, event, declared)
    ensures var h := Add(g, event, declared);
            Converse(h.causes, h.effects) <==> forall c :: c in Out(g.causes, event) ==> c in declared
  {
    var h := Accepted(g, event, declared);
    if forall c :: c in Out(g.causes, event) ==> c in declared {
      forall a, b
        ensures b in Out(h.effects, a) <==> a in Out(h.causes, b)
      {
        AcceptedRows(g, event, declared, a);
        AcceptedRows(g, event, declared, b);
      }
    } else {
      var c :| c in Out(g.causes, event) && c !in declared;
      AcceptedRows(g, event, declared, c);
      AcceptedRows(g, event, declared, event);
      assert event in Out(h.effects, c) && c !in Out(h.causes, event);
    }
  }

  /** No accepted registration drops a cause that an earlier one declared for the same event. */
  ghost predicate DropsNoCause(calls: seq<Call>) {
    calls == [] ||
    var before := Run(calls[..|calls| - 1]);
    var last := calls[|calls| - 1];
    && DropsNoCause(calls[..|calls| - 1])
    && (!Rejects(before, last.0, last.1) ==> forall c :: c in Out(before.causes, last.0) ==> c in last.1)
  }

  lemma {:induction false} RunConverse(calls: seq<Call>)
    requires DropsNoCause(calls)
    ensures var g := Run(calls); Converse(g.causes, g.effects)
  {
    if calls != [] {
      var last := calls[|calls| - 1];
      var init := calls[..|calls| - 1];
      RunConverse(init);
      RunSound(init);
      if !Rejects(Run(init), last.0, last.1) {
        ConverseAfterAdd(Run(init), last.0, last.1);
      }
    }
  }

  /** Registering each id at most once is enough. */
  lemma {:induction false} OnceRegisteredDropsNoCause(calls: seq<Call>)
    requires forall i, j :: 0 <= i < j < |calls| ==> calls[i].0 != calls[j].0
    ensures DropsNoCause(calls)
    ensures forall e :: e in Run(calls).causes ==> exists i :: 0 <= i < |calls| && calls[i].0 == e
  {
    if calls != [] {
      var init := calls[..|calls| - 1];
      OnceRegisteredDropsNoCause(init);
      forall e | e in Run(calls).causes
        ensures exists i :: 0 <= i < |calls| && calls[i].0 == e
      {
        if e in Run(init).causes {
          var i :| 0 <= i < |init| && init[i].0 == e;
          assert calls[i].0 == e;
        } else {
          assert calls[|calls| - 1].0 == e;
        }
      }
    }
  }

  // ----- What `effects` remembers

  /** Some accepted call named `u` among the causes of `v`. */
  ghost predicate Declared(calls: seq<Call>, u: EventId, v: EventId) {
    exists i :: 0 <= i < |calls| && Declares(calls, i, u, v)
  }

  ghost predicate Declares(calls: seq<Call>, i: nat, u: EventId, v: EventId)
    requires i < |calls|
  {
    calls[i].0 == v && u in calls[i].1 && !Rejects(Run(calls[..i]), v, calls[i].1)
  }

  /** `effects` holds every cause that was ever accepted, whatever later registrations dropped. */
  lemma {:induction false} EffectsRemember(calls: seq<Call>, u: EventId, v: EventId)
    ensures v in Out(Run(calls).effects, u) <==> Declared(calls, u, v)
  {
    hide Rejects, Accepted;
    if calls != [] {
      var init, last := calls[..|calls| - 1], calls[|calls| - 1];
      EffectsRemember(init, u, v);
      DeclaredSnoc(init, last, u, v);
      assert calls == init + [last];
      AcceptedRows(Run(init), last.0, last.1, u);
    }
  }

  lemma DeclaredSnoc(calls: seq<Call>, c: Call, u: EventId, v: EventId)
    ensures Declared(calls + [c], u, v) <==>
            Declared(calls, u, v) || (c.0 == v && u in c.1 && !Rejects(Run(calls), v, c.1))
  {
    hide Rejects, Run;
    var longer := calls + [c];
    assert longer[..|calls|] == calls;
    assert forall i :: 0 <= i < |calls| ==> longer[i] == calls[i] && longer[..i] == calls[..i];
    if Declared(calls, u, v) {
      var i :| 0 <= i < |calls| && Declares(calls, i, u, v);
      assert Declares(longer, i, u, v);
    }
    if c.0 == v && u in c.1 && !Rejects(Run(calls), v, c.1) {
      assert Declares(longer, |calls|, u, v);
    }
    if Declared(longer, u, v) {
      var i :| 0 <= i < |longer| && Declares(longer, i, u, v);
      assert i < |calls| ==> Declares(calls, i, u, v);
    }
  }
}
