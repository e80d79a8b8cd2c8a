/** Kahn's sort as the code runs it, and the runs of registrations on which it fails. */
module CausalSort {
  import opened Core
  import opened Digraph
  import opened CausalSpec
  import opened KahnSpec
  import opened KahnEnds
  import Bits

  // ----- Registrations after which the sort fails

  lemma RunSnoc(calls: seq<Call>, event: EventId, declared: seq<EventId>)
    requires !Rejects(Run(calls), event, declared)
    ensures Run(calls + [(event, declared)]) == Accepted(Run(calls), event, declared)
  {
    var longer := calls + [(event, declared)];
    assert longer[..|longer| - 1] == calls;
  }

  /** Causes without causes of their own are never refused. */
  lemma RootsAccepted(g: Graph, event: EventId, declared: seq<EventId>)
    requires forall c :: c in declared ==> c != event && Out(g.causes, c) == []
    ensures !Rejects(g, event, declared)
  {
    hide Steps;
    forall c, n: nat | c in declared
      ensures !Steps(g.causes, c, event, n)
    {
      if n == 0 {
        ZeroSteps(g.causes, c, event);
      } else if Steps(g.causes, c, event, n) {
        var m := FirstStep(g.causes, c, event, n);
      }
    }
  }

  lemma NormalizeSmall(x: EventId)
    ensures Normalize([]) == [] && Normalize([x]) == [x]
  {
    assert [x][1..] == [];
  }

  /** `b` registered after `a`. */
  ghost function First(a: EventId, b: EventId): Graph {
    Run([(b, [a])])
  }

  lemma FirstRows(a: EventId, b: EventId)
    requires a != b
    ensures var g := First(a, b);
            g.causes == map[b := [a]] && forall x :: Out(g.effects, x) == if x == a then [b] else []
  {
    hide Rejects, Normalize, Accepted;
    var g := Graph(map[], map[]);
    RootsAccepted(g, b, [a]);
    NormalizeSmall(a);
    assert [] + [(b, [a])] == [(b, [a])];
    RunSnoc([], b, [a]);
    AcceptedCauses(g, b, [a]);
    forall x
      ensures Out(First(a, b).effects, x) == if x == a then [b] else []
    {
      AcceptedRows(g, b, [a], x);
    }
  }

  lemma AcceptedCauses(g: Graph, event: EventId, declared: seq<EventId>)
    ensures Accepted(g, event, declared).causes == g.causes[event := Normalize(declared)]
  {
  }

  /** ... and again without causes. */
  ghost function Second(a: EventId, b: EventId): Graph {
    Run([(b, [a]), (b, [])])
  }

  lemma SecondRows(a: EventId, b: EventId)
    requires a != b
    ensures var g := Second(a, b);
            g.causes == map[b := []] && forall x :: Out(g.effects, x) == if x == a then [b] else []
  {
    hide Rejects, Normalize, Accepted, Run;
    FirstRows(a, b);
    var g := First(a, b);
    RootsAccepted(g, b, []);
    NormalizeSmall(a);
    assert [(b, [a])] + [(b, [])] == [(b, [a]), (b, [])];
    RunSnoc([(b, [a])], b, []);
    AcceptedCauses(g, b, []);
    forall x
      ensures Out(Second(a, b).effects, x) == if x == a then [b] else []
    {
      AcceptedRows(g, b, [], x);
    }
  }

  /** ... then `a` after `b`: both lists of effects keep what was declared first. */
  ghost function ReRegistered(a: EventId, b: EventId): Graph {
    Run([(b, [a]), (b, []), (a, [b])])
  }

  lemma ReRegisteredRows(a: EventId, b: EventId)
    requires a != b
    ensures var g := ReRegistered(a, b);
            && g.causes == map[b := [], a := [b]]
            && Out(g.effects, a) == [b] && Out(g.effects, b) == [a]
  {
    hide Rejects, Normalize, Accepted, Run;
    SecondRows(a, b);
    var g := Second(a, b);
    RootsAccepted(g, a, [b]);
    NormalizeSmall(b);
    assert [(b, [a]), (b, [])] + [(a, [b])] == [(b, [a]), (b, []), (a, [b])];
    RunSnoc([(b, [a]), (b, [])], a, [b]);
    AcceptedCauses(g, a, [b]);
    AcceptedRows(g, a, [b], a);
    AcceptedRows(g, a, [b], b);
  }

  /** ... or `a` without causes: the effect of `a` on `b` is forgotten by `b` only. */
  ghost function Forgotten(a: EventId, b: EventId): Graph {
    Run([(b, [a]), (b, []), (a, [])])
  }

  lemma ForgottenRows(a: EventId, b: EventId)
    requires a != b
    ensures var g := Forgotten(a, b);
            g.causes == map[b := [], a := []] && forall x :: Out(g.effects, x) == if x == a then [b] else []
  {
    hide Rejects, Normalize, Accepted, Run;
    SecondRows(a, b);
    var g := Second(a, b);
    RootsAccepted(g, a, []);
    NormalizeSmall(b);
    assert [(b, [a]), (b, [])] + [(a, [])] == [(b, [a]), (b, []), (a, [])];
    RunSnoc([(b, [a]), (b, [])], a, []);
    AcceptedCauses(g, a, []);
    forall x
      ensures Out(Forgotten(a, b).effects, x) == if x == a then [b] else []
    {
      AcceptedRows(g, a, [], x);
    }
  }

  lemma OneEdgeAcyclic(effects: Adj<EventId>, a: EventId, b: EventId)
    requires a != b && forall x :: Out(effects, x) == if x == a then [b] else []
    ensures Acyclic(effects)
  {
    hide Steps;
    forall e, n: nat | n > 0
      ensures !Steps(effects, e, e, n)
    {
      if Steps(effects, e, e, n) {
        var m := FirstStep(effects, e, e, n);
        var p := StepsUnsnoc(effects, e, e, n);
      }
    }
  }

  /** On that graph the loop ends, `b` has come out twice, and the answer is the error, although no cause precedes
      itself. */
  lemma ForgottenCauseErrs(a: EventId, b: EventId, k: Kahn)
    requires a != b && Initial(Forgotten(a, b).causes, k)
    ensures var g := Forgotten(a, b);
            && Acyclic(g.causes) && (exists n: nat :: EndsAt(g, k, n))
            && forall n: nat :: EndsAt(g, k, n) ==> !AnswersOk(g, k, n)
  {
    hide Acyclic, Initial, EndsAt, AnswersOk, Forgotten;
    var g := Forgotten(a, b);
    ForgottenRows(a, b);
    OneEdgeAcyclic(g.effects, a, b);
    ForgottenSound(a, b);
    EndsExactly(g, k);
    forall n: nat
      ensures !AnswersOk(g, k, n)
    {
      StaleNeverOk(g, k, n, a, b);
    }
  }

  lemma ForgottenSound(a: EventId, b: EventId)
    ensures Sound(Forgotten(a, b))
  {
    RunSound([(b, [a]), (b, []), (a, [])]);
  }

  lemma OnlyElement(s: seq<EventId>, b: EventId)
    requires NoDuplicates(s) && b in s && forall v :: v in s ==> v == b
    ensures s == [b]
  {
    assert s[0] in s && s[|s| - 1] in s;
  }

  /** After `a` was registered on `b`, the loop outputs the two in turn for ever. */
  lemma {:induction false} ReRegistrationNeverEnds(a: EventId, b: EventId, k: Kahn, n: nat)
    requires a != b && Initial(ReRegistered(a, b).causes, k)
    ensures var t := StepN(ReRegistered(a, b).effects, k, n);
            && a in t.deg && b in t.deg
            && t.deg[a] == (if n == 0 then 1 else 0) && t.deg[b] == 0
            && t.queue == if n % 2 == 0 then [b] else [a]
  {
    hide ReRegistered, Relax, Step;
    ReRegisteredRows(a, b);
    if n == 0 {
      OneIsReady(a, b, ReRegistered(a, b).causes, k);
    } else {
      ReRegistrationNeverEnds(a, b, k, n - 1);
      var t := StepN(ReRegistered(a, b).effects, k, n - 1);
      Alternates(ReRegistered(a, b).effects, t, t.queue[0], if t.queue[0] == a then b else a);
    }
  }

  lemma OneIsReady(a: EventId, b: EventId, causes: Adj<EventId>, k: Kahn)
    requires a != b && causes == map[b := [], a := [b]] && Initial(causes, k)
    ensures a in k.deg && b in k.deg && k.deg[a] == 1 && k.deg[b] == 0 && k.queue == [b]
  {
    assert a in Nodes(causes) && b in Nodes(causes);
    assert Nodes(causes) == {a, b};
    assert b in k.queue && a !in k.queue;
    OnlyElement(k.queue, b);
  }

  /** The event taken from the queue brings the other one back, whose in-degree does not go below zero. */
  lemma Alternates(effects: Adj<EventId>, t: Kahn, x: EventId, y: EventId)
    requires t.queue == [x] && Out(effects, x) == [y] && x != y
    requires x in t.deg && y in t.deg && 0 <= t.deg[y] <= 1
    ensures var u := Step(effects, t);
            u.queue == [y] && x in u.deg && y in u.deg && u.deg[x] == t.deg[x] && u.deg[y] == 0
  {
    assert [y][..0] == [];
    assert Relax(Pop(t), [y]) == RelaxOne(Pop(t), y);
    assert Pop(t).queue == [];
  }

  /** The in-degree table: every known event, with the number of its causes. */
  method InDegrees(causes: Adj<EventId>) returns (deg: map<EventId, int>)
    ensures forall v :: v in deg <==> v in Nodes(causes)
    ensures forall v :: v in deg ==> deg[v] == |Out(causes, v)|
  {
    deg := map[];
    var todo := causes.Keys;
    while todo != {}
      invariant todo <= causes.Keys
      invariant forall v :: v in deg <==> exists e :: e in causes && e !in todo && (v == e || v in causes[e])
      invariant forall v :: v in deg ==> deg[v] == if v in todo then 0 else |Out(causes, v)|
      decreases todo
    {
      var event :| event in todo;
      ghost var before := deg;
      deg := OrInsertZero(deg, event);
      for i := 0 to |causes[event]|
        invariant forall v :: v in deg <==> v in before || v == event || v in causes[event][..i]
        invariant forall v :: v in before ==> deg[v] == before[v]
        invariant forall v :: v in deg && v !in before ==> deg[v] == 0
      {
        assert causes[event][..i + 1] == causes[event][..i] + [causes[event][i]];
        deg := OrInsertZero(deg, causes[event][i]);
      }
      assert causes[event][..|causes[event]|] == causes[event];
      deg := deg[event := deg[event] + |causes[event]|];
      todo := todo - {event};
    }
  }

  function OrInsertZero(deg: map<EventId, int>, v: EventId): map<EventId, int> {
    if v in deg then deg else deg[v := 0]
  }

  /** The events without causes, each once. */
  method Ready(deg: map<EventId, int>) returns (queue: seq<EventId>)
    ensures NoDuplicates(queue)
    ensures forall v :: v in queue <==> v in deg && deg[v] == 0
  {
    queue := [];
    var todo := deg.Keys;
    while todo != {}
      invariant todo <= deg.Keys && NoDuplicates(queue)
      invariant forall v :: v in queue <==> v in deg && v !in todo && deg[v] == 0
      decreases todo
    {
      var event :| event in todo;
      if deg[event] == 0 {
        queue := queue + [event];
      }
      todo := todo - {event};
    }
  }

  /** The inner loop: relaxes the effects of one event. */
  method RelaxAll(k: Kahn, effects: seq<EventId>) returns (t: Kahn)
    ensures t == Relax(k, effects)
  {
    var deg, queue := k.deg, k.queue;
    for i := 0 to |effects|
      invariant k.(deg := deg, queue := queue) == Relax(k, effects[..i])
    {
      assert effects[..i + 1][..i] == effects[..i];
      var v := effects[i];
      if v in deg {
        var d := if deg[v] >= 1 then deg[v] - 1 else 0;
        deg := deg[v := d];
        if d == 0 {
          queue := queue + [v];
        }
      }
    }
    assert effects[..|effects|] == effects;
    t := k.(deg := deg, queue := queue);
  }

  lemma NextRound(effects: Adj<EventId>, k: Kahn, n: nat)
    requires StepN(effects, k, n).queue != []
    ensures StepN(effects, k, n + 1) == Step(effects, StepN(effects, k, n))
  {
    hide Step;
  }

  /** Kahn's loop, watched for a number of rounds; nothing is answered while it is still running. It never answers
      when `effects` has a cycle, and otherwise it does within as many rounds as there are sets of known events:
      Ok with a topological order if no known event has a stale effect, and the error if one has. */
  method TopologicalSort(g: Graph, rounds: nat) returns (r: Option<Result<seq<EventId>, string>>)
    requires Sound(g)
    ensures !Acyclic(g.effects) ==> r.None?
    ensures Acyclic(g.effects) && rounds >= Bits.Pow2(|Nodes(g.causes)|) ==> r.Some?
    ensures NoStale(g) && rounds >= |Nodes(g.causes)| ==> r.Some?
    ensures r.Some? ==> (r.value.Ok? <==> NoStale(g))
    ensures r.Some? && r.value.Ok? ==> IsTopological(g.causes, r.value.value)
  {
    hide Sound, StepN, Step, Initial, NoStale, IsTopological, Acyclic, Bits.Pow2;
    var deg := InDegrees(g.causes);
    var queue := Ready(deg);
    ghost var start := Kahn(deg, queue, []);
    StartsInitial(g, start);
    var k := Kahn(deg, queue, []);
    NoRound(g.effects, start);
    var n := 0;
    while k.queue != [] && n < rounds
      invariant 0 <= n <= rounds && k == StepN(g.effects, start, n)
      decreases rounds - n
    {
      NextRound(g.effects, start, n);
      var effects := Out(g.effects, k.queue[0]);
      StepIs(g.effects, k);
      k := RelaxAll(Pop(k), effects);
      n := n + 1;
    }
    Watched(g, start, n, rounds);
    if k.queue != [] {
      return None;
    }
    if |k.order| != |k.deg| {
      return Some(Err("cycle detected during topological sorting"));
    }
    r := Some(Ok(k.order));
  }

  lemma StartsInitial(g: Graph, k: Kahn)
    requires k.order == [] && (forall v :: v in k.deg <==> v in Nodes(g.causes))
    requires forall v :: v in k.deg ==> k.deg[v] == |Out(g.causes, v)|
    requires NoDuplicates(k.queue) && forall v :: v in k.queue <==> v in k.deg && k.deg[v] == 0
    ensures Initial(g.causes, k)
  {
  }

  lemma NoRound(effects: Adj<EventId>, k: Kahn)
    ensures StepN(effects, k, 0) == k
  {
  }

  lemma StepIs(effects: Adj<EventId>, k: Kahn)
    requires k.queue != []
    ensures Step(effects, k) == Relax(Pop(k), Out(effects, k.queue[0]))
  {
  }

  /** What the watched rounds tell. */
  lemma Watched(g: Graph, k: Kahn, n: nat, rounds: nat)
    requires Sound(g) && Initial(g.causes, k) && n <= rounds && (EndsAt(g, k, n) || n == rounds)
    ensures EndsAt(g, k, n) ==> Acyclic(g.effects)
    ensures EndsAt(g, k, n) ==> (AnswersOk(g, k, n) <==> NoStale(g))
    ensures AnswersOk(g, k, n) ==> IsTopological(g.causes, StepN(g.effects, k, n).order)
    ensures NoStale(g) && rounds >= |Nodes(g.causes)| ==> EndsAt(g, k, n)
    ensures Acyclic(g.effects) && rounds >= Bits.Pow2(|Nodes(g.causes)|) ==> EndsAt(g, k, n)
  {
    hide Sound, StepN, Initial, NoStale, IsTopological, Acyclic, Bits.Pow2, Nodes;
    SortsExactlyWithoutStale(g, k);
    EndsExactly(g, k);
    if NoStale(g) {
      if EndsAt(g, k, n) {
        SameEnd(g, k, n, |Nodes(g.causes)|);
      }
      if rounds >= |Nodes(g.causes)| {
        EndedStays(g.effects, k, |Nodes(g.causes)|, rounds);
      }
    }
    if Acyclic(g.effects) && rounds >= Bits.Pow2(|Nodes(g.causes)|) {
      AcyclicEnds(g, k);
      EndedStays(g.effects, k, Bits.Pow2(|Nodes(g.causes)|), rounds);
    }
  }

  /** A loop ends in one way only. */
  lemma SameEnd(g: Graph, k: Kahn, m: nat, n: nat)
    requires EndsAt(g, k, m) && EndsAt(g, k, n)
    ensures AnswersOk(g, k, m) <==> AnswersOk(g, k, n)
  {
    hide StepN;
    if m <= n {
      EndedStays(g.effects, k, m, n);
    } else {
      EndedStays(g.effects, k, n, m);
    }
  }

  /** Over every run that registers each id at most once, the sort always succeeds. */
  lemma OnceRegisteredSorts(calls: seq<Call>, k: Kahn)
    requires forall i, j :: 0 <= i < j < |calls| ==> calls[i].0 != calls[j].0
    requires Initial(Run(calls).causes, k)
    ensures Sound(Run(calls)) && NoStale(Run(calls))
    ensures Sorts(Run(calls), k, |Nodes(Run(calls).causes)|)
  {
    RunSound(calls);
    OnceRegisteredDropsNoCause(calls);
    RunConverse(calls);
    SortsExactlyWithoutStale(Run(calls), k);
  }
}
