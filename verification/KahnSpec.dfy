/** Kahn's loop over the causal graph, driven by `effects` and counted by `causes`: when it answers Ok. */
module KahnSpec {
  import opened Core
  import opened Digraph
  import opened CausalSpec

  /** The loop variables: remaining in-degrees, events ready to be output, and the output. */
  datatype Kahn = Kahn(deg: map<EventId, int>, queue: seq<EventId>, order: seq<EventId>) {
    ghost function Pushed(): seq<EventId> {
      order + queue
    }
  }

  function Sat(x: int): int {
    if x < 0 then 0 else x
  }

  /** One in-degree goes down by one, saturating at zero; a zero is pushed. */
  function RelaxOne(k: Kahn, v: EventId): Kahn {
    if v !in k.deg then k
    else
      var d := Sat(k.deg[v] - 1);
      k.(deg := k.deg[v := d], queue := if d == 0 then k.queue + [v] else k.queue)
  }

  function Relax(k: Kahn, vs: seq<EventId>): Kahn {
    if vs == [] then k else RelaxOne(Relax(k, vs[..|vs| - 1]), vs[|vs| - 1])
  }

  /** Outputs the first ready event. */
  function Pop(k: Kahn): Kahn
    requires k.queue != []
  {
    k.(queue := k.queue[1..], order := k.order + [k.queue[0]])
  }

  function Step(effects: Adj<EventId>, k: Kahn): Kahn
    requires k.queue != []
  {
    Relax(Pop(k), Out(effects, k.queue[0]))
  }

  ghost function StepN(effects: Adj<EventId>, k: Kahn, n: nat): Kahn {
    if n == 0 then k
    else
      var t := StepN(effects, k, n - 1);
      if t.queue == [] then t else Step(effects, t)
  }

  /** The state the loop starts from; ready events may be listed in any order. */
  ghost predicate Initial(causes: Adj<EventId>, k: Kahn) {
    && k.order == []
    && (forall v :: v in k.deg <==> v in Nodes(causes))
    && (forall v :: v in k.deg ==> k.deg[v] == |Out(causes, v)|)
    && NoDuplicates(k.queue)
    && (forall v :: v in k.queue <==> v in k.deg && k.deg[v] == 0)
  }

  /** Each known event once, every cause before its effects. */
  ghost predicate IsTopological(causes: Adj<EventId>, order: seq<EventId>) {
    && NoDuplicates(order)
    && (forall v :: v in order <==> v in Nodes(causes))
    && CausesFirst(causes, order)
  }

  ghost predicate CausesFirst(causes: Adj<EventId>, order: seq<EventId>) {
    forall j, c :: 0 <= j < |order| && c in Out(causes, order[j]) ==> c in order[..j]
  }

  /** After `n` rounds the loop has come to an end and the length test answers Ok. */
  ghost predicate AnswersOk(g: Graph, k: Kahn, n: nat) {
    var t := StepN(g.effects, k, n);
    t.queue == [] && |t.order| == |t.deg|
  }

  /** ... with a topological order. */
  ghost predicate Sorts(g: Graph, k: Kahn, n: nat) {
    AnswersOk(g, k, n) && IsTopological(g.causes, StepN(g.effects, k, n).order)
  }

  /** No event known to the sort lists an effect that no longer names it as a cause. */
  ghost predicate NoStale(g: Graph) {
    forall u, v :: u in Nodes(g.causes) && v in Out(g.effects, u) ==> u in Out(g.causes, v)
  }

  /** How many elements of `s` list `v` among their effects. */
  ghost function Hits(effects: Adj<EventId>, s: seq<EventId>, v: EventId): nat {
    if s == [] then 0
    else Hits(effects, s[..|s| - 1], v) + if v in Out(effects, s[|s| - 1]) then 1 else 0
  }

  /** The bookkeeping every run keeps, whatever the graph: how often `v` was pushed is
      determined by how often it was relaxed. */
  ghost predicate Counted(g: Graph, k: Kahn) {
    && (forall v :: v in k.deg <==> v in Nodes(g.causes))
    && (forall v :: v in k.Pushed() ==> v in k.deg)
    && (forall v :: v in k.deg ==> CountedAt(g, k, v))
  }

  ghost predicate CountedAt(g: Graph, k: Kahn, v: EventId)
    requires v in k.deg
  {
    && k.deg[v] == Sat(|Out(g.causes, v)| - Hits(g.effects, k.order, v))
    && Count(k.Pushed(), v) == Sat(Hits(g.effects, k.order, v) - |Out(g.causes, v)| + 1)
  }

  lemma {:induction false} CountPositive(s: seq<EventId>, v: EventId)
    ensures v in s <==> Count(s, v) > 0
  {
    if s != [] {
      CountPositive(s[..|s| - 1], v);
      assert s == s[..|s| - 1] + [s[|s| - 1]];
    }
  }

  lemma {:induction false} CountAtMostOne(s: seq<EventId>)
    requires forall v :: Count(s, v) <= 1
    ensures NoDuplicates(s)
  {
    if s != [] {
      var init, x := s[..|s| - 1], s[|s| - 1];
      forall v
        ensures Count(init, v) <= 1
      {
        assert Count(s, v) <= 1;
      }
      CountAtMostOne(init);
      CountPositive(init, x);
      assert Count(s, x) == Count(init, x) + 1;
      assert forall j :: 0 <= j < |init| ==> s[j] == init[j];
    }
  }

  lemma {:induction false} CountNoDuplicates(s: seq<EventId>, v: EventId)
    requires NoDuplicates(s)
    ensures Count(s, v) <= 1
  {
    if s != [] {
      CountNoDuplicates(s[..|s| - 1], v);
      CountPositive(s[..|s| - 1], v);
    }
  }

  lemma RelaxOneAt(k: Kahn, x: EventId, v: EventId)
    requires v in k.deg && k.deg[v] >= 0
    ensures var t := RelaxOne(k, x);
            && t.order == k.order
            && v in t.deg
            && t.deg[v] == (if x == v then Sat(k.deg[v] - 1) else k.deg[v])
            && Count(t.Pushed(), v) == Count(k.Pushed(), v) + if x == v && k.deg[v] <= 1 then 1 else 0
  {
    var p := k.order + (k.queue + [x]);
    assert p[..|p| - 1] == k.Pushed();
  }

  /** Relaxing a duplicate-free list touches each listed event once. */
  lemma {:induction false} RelaxAt(k: Kahn, vs: seq<EventId>, v: EventId)
    requires NoDuplicates(vs) && v in k.deg && k.deg[v] >= 0
    ensures var t := Relax(k, vs);
            && t.order == k.order
            && v in t.deg
            && t.deg[v] == (if v in vs then Sat(k.deg[v] - 1) else k.deg[v])
            && Count(t.Pushed(), v) == Count(k.Pushed(), v) + if v in vs && k.deg[v] <= 1 then 1 else 0
  {
    if vs != [] {
      var init, x := vs[..|vs| - 1], vs[|vs| - 1];
      assert vs == init + [x] && x !in init;
      RelaxAt(k, init, v);
      RelaxOneAt(Relax(k, init), x, v);
    }
  }

  lemma {:induction false} RelaxFrame(k: Kahn, vs: seq<EventId>)
    ensures var t := Relax(k, vs);
            && t.order == k.order
            && (forall v :: v in t.deg <==> v in k.deg)
            && (forall v :: v in t.Pushed() ==> v in k.Pushed() || v in k.deg)
  {
    if vs != [] {
      RelaxFrame(k, vs[..|vs| - 1]);
    }
  }

  lemma PopKeepsPushed(k: Kahn)
    requires k.queue != []
    ensures Pop(k).Pushed() == k.Pushed()
  {
  }

  lemma StepAt(g: Graph, k: Kahn, v: EventId)
    requires Sound(g) && k.queue != [] && v in k.deg && CountedAt(g, k, v)
    ensures var t := Step(g.effects, k); v in t.deg && CountedAt(g, t, v)
  {
    var row := Out(g.effects, k.queue[0]);
    PopKeepsPushed(k);
    RelaxAt(Pop(k), row, v);
    var order' := k.order + [k.queue[0]];
    assert order'[..|order'| - 1] == k.order;
  }

  lemma StepKeepsCounted(g: Graph, k: Kahn)
    requires Sound(g) && Counted(g, k) && k.queue != []
    ensures Counted(g, Step(g.effects, k))
    ensures Step(g.effects, k).order == k.order + [k.queue[0]]
  {
    RelaxFrame(Pop(k), Out(g.effects, k.queue[0]));
    PopKeepsPushed(k);
    forall v | v in k.deg
      ensures CountedAt(g, Step(g.effects, k), v)
    {
      StepAt(g, k, v);
    }
  }

  lemma InitialCounted(g: Graph, k: Kahn)
    requires Initial(g.causes, k)
    ensures Counted(g, k)
  {
    assert k.Pushed() == k.queue;
    forall v | v in k.deg
      ensures CountedAt(g, k, v)
    {
      CountPositive(k.queue, v);
      CountNoDuplicates(k.queue, v);
    }
  }

  lemma {:induction false} StepNCounted(g: Graph, k: Kahn, n: nat)
    requires Sound(g) && Initial(g.causes, k)
    ensures Counted(g, StepN(g.effects, k, n))
  {
    if n == 0 {
      InitialCounted(g, k);
    } else {
      StepNCounted(g, k, n - 1);
      var t := StepN(g.effects, k, n - 1);
      if t.queue != [] {
        StepKeepsCounted(g, t);
      }
    }
  }

  /** Hits over a duplicate-free list are the size of a set. */
  ghost function Hitters(effects: Adj<EventId>, s: seq<EventId>, v: EventId): set<EventId> {
    set u | u in s && v in Out(effects, u)
  }

  lemma {:induction false} HitsIsSize(effects: Adj<EventId>, s: seq<EventId>, v: EventId)
    requires NoDuplicates(s)
    ensures Hits(effects, s, v) == |Hitters(effects, s, v)|
  {
    if s != [] {
      var init, x := s[..|s| - 1], s[|s| - 1];
      HitsIsSize(effects, init, v);
      assert s == init + [x];
      assert x !in init;
      if v in Out(effects, x) {
        assert Hitters(effects, s, v) == Hitters(effects, init, v) + {x};
      } else {
        assert Hitters(effects, s, v) == Hitters(effects, init, v);
      }
    }
  }

  ghost function Elements(s: seq<EventId>): set<EventId> {
    set x | x in s
  }

  lemma {:induction false} ElementsSize(s: seq<EventId>)
    requires NoDuplicates(s)
    ensures |Elements(s)| == |s|
  {
    if s != [] {
      var init, x := s[..|s| - 1], s[|s| - 1];
      ElementsSize(init);
      assert s == init + [x];
      assert Elements(s) == Elements(init) + {x};
    }
  }

  lemma SubsetSize<T>(a: set<T>, b: set<T>)
    requires a <= b
    ensures |a| <= |b|
    ensures |a| == |b| ==> a == b
  {
    assert b == a + (b - a);
  }

  lemma SortedNoDuplicates(s: seq<EventId>)
    requires StrictlySorted(s)
    ensures NoDuplicates(s)
  {
    forall i, j | 0 <= i < j < |s|
      ensures s[i] != s[j]
    {
      assert s[i].Less(s[j]);
    }
  }

  /** Without stale effects an event is never relaxed more often than it has causes. */
  lemma HitsBound(g: Graph, order: seq<EventId>, v: EventId)
    requires Sound(g) && NoStale(g) && NoDuplicates(order)
    requires forall u :: u in order ==> u in Nodes(g.causes)
    ensures Hits(g.effects, order, v) <= |Out(g.causes, v)|
    ensures Hits(g.effects, order, v) == |Out(g.causes, v)| <==> forall c :: c in Out(g.causes, v) ==> c in order
  {
    var hit, all := Hitters(g.effects, order, v), Elements(Out(g.causes, v));
    HitsIsSize(g.effects, order, v);
    SortedNoDuplicates(Out(g.causes, v));
    ElementsSize(Out(g.causes, v));
    assert hit <= all;
    SubsetSize(hit, all);
    if forall c :: c in Out(g.causes, v) ==> c in order {
      assert all <= hit;
      assert all == hit;
    }
    if Hits(g.effects, order, v) == |Out(g.causes, v)| {
      forall c | c in Out(g.causes, v)
        ensures c in order
      {
        assert c in all;
      }
    }
  }

  /** What each round keeps when no effect is stale. */
  ghost predicate Progress(g: Graph, k: Kahn) {
    && Counted(g, k)
    && NoDuplicates(k.Pushed())
    && CausesFirst(g.causes, k.order)
  }

  lemma PushedOnce(g: Graph, k: Kahn)
    requires Sound(g) && NoStale(g) && Counted(g, k) && NoDuplicates(k.order)
    ensures NoDuplicates(k.Pushed())
  {
    forall v
      ensures Count(k.Pushed(), v) <= 1
    {
      if v in k.deg {
        assert CountedAt(g, k, v);
        assert forall u :: u in k.order ==> u in k.Pushed();
        HitsBound(g, k.order, v);
      } else {
        CountPositive(k.Pushed(), v);
      }
    }
    CountAtMostOne(k.Pushed());
  }

  lemma ReadyCausesDone(g: Graph, k: Kahn, v: EventId)
    requires Sound(g) && NoStale(g) && Progress(g, k) && v in k.Pushed()
    ensures forall c :: c in Out(g.causes, v) ==> c in k.order
  {
    assert CountedAt(g, k, v);
    CountPositive(k.Pushed(), v);
    assert forall u :: u in k.order ==> u in k.Pushed();
    assert NoDuplicates(k.order) by {
      assert forall i :: 0 <= i < |k.order| ==> k.order[i] == k.Pushed()[i];
    }
    HitsBound(g, k.order, v);
  }

  lemma StepKeepsProgress(g: Graph, k: Kahn)
    requires Sound(g) && NoStale(g) && Progress(g, k) && k.queue != []
    ensures Progress(g, Step(g.effects, k))
    ensures Step(g.effects, k).order == k.order + [k.queue[0]]
  {
    hide Sound, NoStale, Counted, Step, CausesFirst;
    var t := Step(g.effects, k);
    StepKeepsCounted(g, k);
    assert NoDuplicates(t.order) by {
      assert forall i :: 0 <= i < |t.order| ==> t.order[i] == k.Pushed()[i];
    }
    hide NoDuplicates;
    PushedOnce(g, t);
    assert k.queue[0] in k.queue && k.queue[0] in k.Pushed();
    ReadyCausesDone(g, k, k.queue[0]);
    CausesFirstSnoc(g.causes, k.order, k.queue[0]);
  }

  lemma CausesFirstSnoc(causes: Adj<EventId>, order: seq<EventId>, e: EventId)
    requires CausesFirst(causes, order) && forall c :: c in Out(causes, e) ==> c in order
    ensures CausesFirst(causes, order + [e])
  {
    var longer := order + [e];
    forall j, c | 0 <= j < |longer| && c in Out(causes, longer[j])
      ensures c in longer[..j]
    {
      if j < |order| {
        assert longer[j] == order[j] && longer[..j] == order[..j];
      } else {
        assert longer[..j] == order;
      }
    }
  }

  lemma InitialProgress(g: Graph, k: Kahn)
    requires Sound(g) && Initial(g.causes, k)
    ensures Progress(g, k)
  {
    InitialCounted(g, k);
    assert k.Pushed() == k.queue;
  }

  /** When nothing is ready any more, acyclicity leaves no event behind. */
  lemma ExhaustedIsTopological(g: Graph, k: Kahn)
    requires Sound(g) && NoStale(g) && Progress(g, k) && k.queue == []
    ensures IsTopological(g.causes, k.order)
  {
    assert k.Pushed() == k.order;
    var rest := Nodes(g.causes) - Elements(k.order);
    if rest != {} {
      var m := SinkExists(g.causes, rest);
      assert CountedAt(g, k, m);
      HitsBound(g, k.order, m);
      assert forall c :: c in Out(g.causes, m) ==> c in Nodes(g.causes);
      assert forall c :: c in Out(g.causes, m) ==> c in k.order;
      CountPositive(k.order, m);
      assert false;
    }
    forall v | v in Nodes(g.causes)
      ensures v in k.order
    {
      assert v !in rest;
    }
  }

  lemma OrderFits(g: Graph, k: Kahn)
    requires Progress(g, k)
    ensures |k.Pushed()| <= |Nodes(g.causes)|
  {
    ElementsSize(k.Pushed());
    assert Elements(k.Pushed()) <= Nodes(g.causes);
    SubsetSize(Elements(k.Pushed()), Nodes(g.causes));
  }

  lemma {:induction false} StepNProgress(g: Graph, k: Kahn, n: nat)
    requires Sound(g) && NoStale(g) && Initial(g.causes, k)
    ensures var t := StepN(g.effects, k, n);
            Progress(g, t) && (t.queue == [] || |t.order| == n)
  {
    if n == 0 {
      InitialProgress(g, k);
    } else {
      StepNProgress(g, k, n - 1);
      var t := StepN(g.effects, k, n - 1);
      if t.queue != [] {
        StepKeepsProgress(g, t);
      }
    }
  }

  /** Repetitions only add hits. */
  lemma {:induction false} HitsAtLeast(effects: Adj<EventId>, s: seq<EventId>, v: EventId)
    ensures Hits(effects, s, v) >= |Hitters(effects, s, v)|
  {
    if s != [] {
      var init, x := s[..|s| - 1], s[|s| - 1];
      HitsAtLeast(effects, init, v);
      assert s == init + [x];
      if v in Out(effects, x) {
        assert Hitters(effects, s, v) == Hitters(effects, init, v) + {x};
      } else {
        assert Hitters(effects, s, v) == Hitters(effects, init, v);
      }
    }
  }

  /** With all its causes done an event was relaxed often enough, and once too often by a stale effect. */
  lemma CausesHit(g: Graph, order: seq<EventId>, v: EventId, extra: set<EventId>)
    requires Sound(g) && forall c :: c in Out(g.causes, v) ==> c in order
    requires forall u :: u in extra ==> u in order && v in Out(g.effects, u) && u !in Out(g.causes, v)
    ensures Hits(g.effects, order, v) >= |Out(g.causes, v)| + |extra|
  {
    hide Acyclic;
    var hit, all := Hitters(g.effects, order, v), Elements(Out(g.causes, v));
    HitsAtLeast(g.effects, order, v);
    SortedNoDuplicates(Out(g.causes, v));
    ElementsSize(Out(g.causes, v));
    assert all !! extra;
    assert all + extra <= hit;
    SubsetSize(all + extra, hit);
  }

  /** When the loop ends, every known event has come out. */
  lemma EndedIsComplete(g: Graph, k: Kahn)
    requires Sound(g) && Counted(g, k) && k.queue == []
    ensures forall v :: v in Nodes(g.causes) ==> v in k.order
  {
    hide Hits;
    assert k.Pushed() == k.order;
    var rest := Nodes(g.causes) - Elements(k.order);
    if rest != {} {
      var m := SinkExists(g.causes, rest);
      assert forall c :: c in Out(g.causes, m) ==> c in Nodes(g.causes);
      assert forall c :: c in Out(g.causes, m) ==> c in k.order;
      CausesHit(g, k.order, m, {});
      assert CountedAt(g, k, m);
      CountPositive(k.order, m);
    }
    assert forall v :: v in Nodes(g.causes) ==> v !in rest;
  }

  lemma {:induction false} RepeatedIsLonger(s: seq<EventId>, v: EventId)
    ensures |Elements(s)| <= |s|
    ensures Count(s, v) >= 2 ==> |Elements(s)| < |s|
  {
    if s != [] {
      var init, x := s[..|s| - 1], s[|s| - 1];
      RepeatedIsLonger(init, v);
      CountPositive(init, x);
      assert s == init + [x];
      assert Elements(s) == Elements(init) + {x};
    }
  }

  /** A stale effect of a known event makes its target come out twice, so a loop that ends has output too much. */
  lemma StaleNeverOk(g: Graph, k: Kahn, n: nat, u: EventId, v: EventId)
    requires Sound(g) && Initial(g.causes, k)
    requires u in Nodes(g.causes) && v in Out(g.effects, u) && u !in Out(g.causes, v)
    ensures !AnswersOk(g, k, n)
  {
    hide Acyclic, StepN, Hits;
    var t := StepN(g.effects, k, n);
    StepNCounted(g, k, n);
    if t.queue == [] {
      assert t.Pushed() == t.order;
      EndedIsComplete(g, t);
      assert v in Nodes(g.causes) && CountedAt(g, t, v);
      assert forall c :: c in Out(g.causes, v) ==> c in Nodes(g.causes);
      CausesHit(g, t.order, v, {u});
      RepeatedIsLonger(t.order, v);
      assert t.deg.Keys <= Elements(t.order);
      SubsetSize(t.deg.Keys, Elements(t.order));
    }
  }

  /** The sort answers Ok exactly when no known event has a stale effect, and then with a topological order. */
  lemma SortsExactlyWithoutStale(g: Graph, k: Kahn)
    requires Sound(g) && Initial(g.causes, k)
    ensures NoStale(g) <==> exists n: nat :: AnswersOk(g, k, n)
    ensures forall n: nat :: AnswersOk(g, k, n) ==> Sorts(g, k, n)
    ensures NoStale(g) ==> Sorts(g, k, |Nodes(g.causes)|)
  {
    hide StepN, AnswersOk;
    if NoStale(g) {
      EndsSorted(g, k);
      forall n: nat | AnswersOk(g, k, n)
        ensures Sorts(g, k, n)
      {
        OkIsSorted(g, k, n);
      }
    } else {
      var u, v :| u in Nodes(g.causes) && v in Out(g.effects, u) && u !in Out(g.causes, v);
      forall n: nat
        ensures !AnswersOk(g, k, n)
      {
        StaleNeverOk(g, k, n, u, v);
      }
    }
  }

  lemma OkIsSorted(g: Graph, k: Kahn, n: nat)
    requires Sound(g) && NoStale(g) && Initial(g.causes, k) && AnswersOk(g, k, n)
    ensures Sorts(g, k, n)
  {
    hide StepN, Progress;
    StepNProgress(g, k, n);
    ExhaustedIsTopological(g, StepN(g.effects, k, n));
  }

  lemma EndsSorted(g: Graph, k: Kahn)
    requires Sound(g) && NoStale(g) && Initial(g.causes, k)
    ensures Sorts(g, k, |Nodes(g.causes)|)
  {
    hide StepN;
    var n := |Nodes(g.causes)|;
    StepNProgress(g, k, n);
    var t := StepN(g.effects, k, n);
    OrderFits(g, t);
    assert t.queue == [];
    ExhaustedIsTopological(g, t);
    OrderIsComplete(g.causes, t.order, t.deg);
  }

  lemma OrderIsComplete(causes: Adj<EventId>, order: seq<EventId>, deg: map<EventId, int>)
    requires IsTopological(causes, order) && forall v :: v in deg <==> v in Nodes(causes)
    ensures |order| == |deg|
  {
    ElementsSize(order);
    assert Elements(order) == deg.Keys;
  }

  /** More rounds than needed change nothing. */
  lemma {:induction false} EndedStays(effects: Adj<EventId>, k: Kahn, m: nat, n: nat)
    requires m <= n && StepN(effects, k, m).queue == []
    ensures StepN(effects, k, n) == StepN(effects, k, m)
  {
    hide Step;
    if m < n {
      EndedStays(effects, k, m, n - 1);
    }
  }
}
