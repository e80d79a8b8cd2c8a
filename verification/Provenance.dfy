/** Why a belief is held: the tree of justifications that a query builds, and when it can be built. */
module Provenance {
  import opened Core
  import opened Digraph
  import opened TruthSpec
  import opened TruthMaintenance

  /** A belief's record, the contradictions it takes part in, and the traces of its premises. */
  datatype Trace = Trace(id: int, belief: Belief, premises: seq<Trace>, contradictions: seq<Contradiction>)

  /** Those premises that are beliefs, in order. */
  function Known(m: Beliefs, ps: seq<int>): seq<int> {
    if ps == [] then []
    else
      var last := ps[|ps| - 1];
      Known(m, ps[..|ps| - 1]) + if last in m then [last] else []
  }

  /** The contradictions in which a belief takes part, in order. */
  function About(cs: seq<Contradiction>, id: int): seq<Contradiction> {
    if cs == [] then []
    else
      var last := cs[|cs| - 1];
      About(cs[..|cs| - 1], id) + if last.a == id || last.b == id then [last] else []
  }

  ghost predicate IsTrace(m: Beliefs, cs: seq<Contradiction>, id: int, t: Trace)
    decreases t
  {
    && id in m && t.id == id && t.belief == m[id] && t.contradictions == About(cs, id)
    && |t.premises| == |Known(m, m[id].premises)|
    && forall i :: 0 <= i < |t.premises| ==> IsTrace(m, cs, Known(m, m[id].premises)[i], t.premises[i])
  }

  predicate Mentions(t: Trace, k: int) {
    t.id == k || exists i :: 0 <= i < |t.premises| && Mentions(t.premises[i], k)
  }

  lemma {:induction false} KnownHas(m: Beliefs, ps: seq<int>, p: int)
    ensures p in Known(m, ps) <==> p in ps && p in m
  {
    if ps != [] {
      KnownHas(m, ps[..|ps| - 1], p);
      assert ps == ps[..|ps| - 1] + [ps[|ps| - 1]];
    }
  }

  // ----- When the recursion returns

  /** Building the trace of `id` needs fewer than `fuel` nested calls. */
  ghost predicate TracesWithin(m: Beliefs, id: int, fuel: nat)
    decreases fuel
  {
    fuel > 0 && (id in m ==> forall p :: p in m[id].premises && p in m ==> TracesWithin(m, p, fuel - 1))
  }

  ghost predicate Returns(m: Beliefs, id: int) {
    exists fuel: nat :: TracesWithin(m, id, fuel)
  }

  /** Something that `id` rests on rests on itself. */
  ghost predicate Circular(m: Beliefs, id: int) {
    exists c :: c in m && RestsOn(m, id, c) && OnCycle(m, c)
  }

  lemma {:induction false} MoreRoom(m: Beliefs, id: int, f: nat, g: nat)
    requires f <= g && TracesWithin(m, id, f)
    ensures TracesWithin(m, id, g)
    decreases f
  {
    if id in m {
      forall p | p in m[id].premises && p in m
        ensures TracesWithin(m, p, g - 1)
      {
        MoreRoom(m, p, f - 1, g - 1);
      }
    }
  }

  /** A walk to a belief starts at one. */
  lemma StartsAtBelief(m: Beliefs, p: int, k: int, n: nat)
    requires k in m && Steps(Premises(m), p, k, n)
    ensures p in m
  {
    hide Steps;
    if n == 0 {
      NoWalk(m, p, k);
    } else {
      var q := FirstStep(Premises(m), p, k, n);
    }
  }

  lemma {:induction false} WalkUsesRoom(m: Beliefs, a: int, b: int, n: nat, fuel: nat)
    requires b in m && Steps(Premises(m), a, b, n) && TracesWithin(m, a, fuel)
    ensures fuel > n && TracesWithin(m, b, fuel - n)
    decreases n
  {
    hide Steps;
    if n == 0 {
      NoWalk(m, a, b);
    } else {
      var p := FirstStep(Premises(m), a, b, n);
      StartsAtBelief(m, p, b, n - 1);
      WalkUsesRoom(m, p, b, n - 1, fuel - 1);
    }
  }

  lemma {:induction false} CycleNeverReturns(m: Beliefs, c: int, n: nat, fuel: nat)
    requires c in m && n > 0 && Steps(Premises(m), c, c, n)
    ensures !TracesWithin(m, c, fuel)
    decreases fuel
  {
    hide Steps, TracesWithin;
    if TracesWithin(m, c, fuel) {
      WalkUsesRoom(m, c, c, n, fuel);
      CycleNeverReturns(m, c, n, fuel - n);
    }
  }

  lemma CircularNeverReturns(m: Beliefs, id: int, c: int)
    requires c in m && RestsOn(m, id, c) && OnCycle(m, c)
    ensures !Returns(m, id)
  {
    hide Steps, TracesWithin;
    var n := CycleLength(m, c);
    var k := WalkLength(m, id, c);
    forall fuel: nat
      ensures !TracesWithin(m, id, fuel)
    {
      if TracesWithin(m, id, fuel) {
        WalkUsesRoom(m, id, c, k, fuel);
        CycleNeverReturns(m, c, n, fuel - k);
      }
    }
  }

  /** The part of the beliefs that `id` rests on. */
  ghost function Under(m: Beliefs, id: int): Beliefs {
    map k | k in m && RestsOn(m, id, k) :: m[k]
  }

  lemma {:induction false} UnderWalks(m: Beliefs, id: int, a: int, b: int, n: nat)
    requires Steps(Premises(Under(m, id)), a, b, n)
    ensures Steps(Premises(m), a, b, n) && (n > 0 ==> a in Under(m, id))
    decreases n
  {
    hide Steps, RestsOn;
    var g := Premises(Under(m, id));
    if n == 0 {
      ZeroSteps(g, a, b);
      ZeroSteps(Premises(m), a, b);
    } else {
      var c := FirstStep(g, a, b, n);
      UnderWalks(m, id, c, b, n - 1);
      StepsCons(Premises(m), a, c, b, n - 1);
    }
  }

  lemma UnderAcyclic(m: Beliefs, id: int)
    requires !Circular(m, id)
    ensures Acyclic(Premises(Under(m, id)))
  {
    hide Steps, RestsOn;
    forall c: int, n: nat | n > 0
      ensures !Steps(Premises(Under(m, id)), c, c, n)
    {
      if Steps(Premises(Under(m, id)), c, c, n) {
        CycleUnder(m, id, c, n);
      }
    }
  }

  lemma CycleUnder(m: Beliefs, id: int, c: int, n: nat)
    requires n > 0 && Steps(Premises(Under(m, id)), c, c, n)
    ensures Circular(m, id)
  {
    hide Steps, RestsOn;
    UnderWalks(m, id, c, c, n);
    assert OnCycle(m, c);
  }

  lemma {:induction false} CommonRoom(m: Beliefs, ks: set<int>) returns (fuel: nat)
    requires forall k :: k in ks ==> Returns(m, k)
    ensures forall k :: k in ks ==> TracesWithin(m, k, fuel)
    decreases ks
  {
    hide TracesWithin;
    if ks == {} {
      return 0;
    }
    var k := Choose(ks);
    var rest := CommonRoom(m, ks - {k});
    var own: nat :| TracesWithin(m, k, own);
    fuel := rest + own;
    forall j | j in ks
      ensures TracesWithin(m, j, fuel)
    {
      MoreRoom(m, j, if j == k then own else rest, fuel);
    }
  }

  lemma PremisesReturn(m: Beliefs, k: int)
    requires k in m && forall p :: p in m[k].premises && p in m ==> Returns(m, p)
    ensures Returns(m, k)
  {
    hide Returns;
    var fuel := CommonRoom(m, set p | p in m[k].premises && p in m);
    assert TracesWithin(m, k, fuel + 1);
    RoomEnough(m, k, fuel + 1);
  }

  lemma RoomEnough(m: Beliefs, k: int, fuel: nat)
    requires TracesWithin(m, k, fuel)
    ensures Returns(m, k)
  {
  }

  lemma PremiseUnder(m: Beliefs, id: int, k: int, p: int)
    requires k in m && RestsOn(m, id, k) && p in m[k].premises
    ensures RestsOn(m, id, p)
  {
    hide Steps;
    ReachesNext(Premises(m), id, k, p);
  }

  lemma UncircularReturns(m: Beliefs, id: int)
    requires id in m && !Circular(m, id)
    ensures Returns(m, id)
  {
    hide Steps, TracesWithin, Returns, RestsOn, Circular;
    UnderAcyclic(m, id);
    var endless := set k | k in Under(m, id) && !Returns(m, k);
    if endless != {} {
      var k := SinkExists(Premises(Under(m, id)), endless);
      forall p | p in m[k].premises && p in m
        ensures Returns(m, p)
      {
        PremiseUnder(m, id, k, p);
        assert p in Out(Premises(Under(m, id)), k);
      }
      PremisesReturn(m, k);
    }
    RestsOnItself(m, id);
    assert id !in endless;
  }

  lemma RestsOnItself(m: Beliefs, id: int)
    ensures RestsOn(m, id, id)
  {
    ReachesSelf(Premises(m), id);
  }

  /** The recursion returns exactly when nothing the target rests on rests on itself. */
  lemma ReturnsExactly(m: Beliefs, id: int)
    requires id in m
    ensures Returns(m, id) <==> !Circular(m, id)
  {
    hide Steps, TracesWithin, Returns, RestsOn, OnCycle;
    if c :| c in m && RestsOn(m, id, c) && OnCycle(m, c) {
      CircularNeverReturns(m, id, c);
    } else {
      UncircularReturns(m, id);
    }
  }

  // ----- The query

  /** The trace of a known belief, whenever the recursion returns; an unknown one is an error. */
  method Why(m: Beliefs, cs: seq<Contradiction>, id: int) returns (r: Option<Trace>)
    requires id in m ==> Returns(m, id)
    ensures r.Some? <==> id in m
    ensures r.Some? ==> IsTrace(m, cs, id, r.value)
  {
    if id !in m {
      return None;
    }
    ghost var fuel: nat :| TracesWithin(m, id, fuel);
    var t := Build(m, cs, id, fuel);
    r := Some(t);
  }

  method Build(m: Beliefs, cs: seq<Contradiction>, id: int, ghost fuel: nat) returns (t: Trace)
    requires id in m && TracesWithin(m, id, fuel)
    ensures IsTrace(m, cs, id, t)
    decreases fuel
  {
    hide Mentions;
    var ps := m[id].premises;
    var traces := [];
    for i := 0 to |ps|
      invariant |traces| == |Known(m, ps[..i])|
      invariant forall j :: 0 <= j < |traces| ==> IsTrace(m, cs, Known(m, ps[..i])[j], traces[j])
    {
      assert ps[..i + 1][..i] == ps[..i];
      if ps[i] in m {
        var u := Build(m, cs, ps[i], fuel - 1);
        traces := traces + [u];
      }
    }
    assert ps[..|ps|] == ps;
    var relevant := [];
    for i := 0 to |cs|
      invariant relevant == About(cs[..i], id)
    {
      assert cs[..i + 1][..i] == cs[..i];
      if cs[i].a == id || cs[i].b == id {
        relevant := relevant + [cs[i]];
      }
    }
    assert cs[..|cs|] == cs;
    t := Trace(id, m[id], traces, relevant);
  }

  /** A trace mentions a belief exactly when the target rests on it. */
  lemma WhyExactly(m: Beliefs, cs: seq<Contradiction>, id: int, t: Trace, k: int)
    requires IsTrace(m, cs, id, t) && k in m
    ensures Mentions(t, k) <==> RestsOn(m, id, k)
  {
    hide Steps, IsTrace;
    if Mentions(t, k) {
      MentionedIsReached(m, cs, id, t, k);
    }
    if RestsOn(m, id, k) {
      var n := WalkLength(m, id, k);
      ReachedIsMentioned(m, cs, id, t, k, n);
    }
  }

  lemma {:induction false} MentionedIsReached(m: Beliefs, cs: seq<Contradiction>, id: int, t: Trace, k: int)
    requires IsTrace(m, cs, id, t) && Mentions(t, k)
    ensures RestsOn(m, id, k)
    decreases t
  {
    hide Steps, RestsOn, Known;
    if id == k {
      RestsOnItself(m, id);
    } else {
      var i :| 0 <= i < |t.premises| && Mentions(t.premises[i], k);
      var p := Known(m, m[id].premises)[i];
      KnownHas(m, m[id].premises, p);
      MentionedIsReached(m, cs, p, t.premises[i], k);
      PremiseFirst(m, id, p, k);
    }
  }

  lemma PremiseFirst(m: Beliefs, id: int, p: int, k: int)
    requires id in m && p in m[id].premises && RestsOn(m, p, k)
    ensures RestsOn(m, id, k)
  {
    hide Steps;
    var n := WalkLength(m, p, k);
    StepsCons(Premises(m), id, p, k, n);
  }

  lemma {:induction false} ReachedIsMentioned(m: Beliefs, cs: seq<Contradiction>, id: int, t: Trace, k: int, n: nat)
    requires IsTrace(m, cs, id, t) && k in m && Steps(Premises(m), id, k, n)
    ensures Mentions(t, k)
    decreases n
  {
    hide Steps, Known;
    if n == 0 {
      NoWalk(m, id, k);
    } else {
      var p := FirstStep(Premises(m), id, k, n);
      StartsAtBelief(m, p, k, n - 1);
      KnownHas(m, m[id].premises, p);
      var i :| 0 <= i < |t.premises| && Known(m, m[id].premises)[i] == p;
      ReachedIsMentioned(m, cs, p, t.premises[i], k, n - 1);
    }
  }

  // ----- A belief that names its own number

  lemma OwnPremise(clean: string -> string, proposition: string)
    ensures Run(clean, [Believe(proposition, [1])]).beliefs == map[1 := Belief(proposition, Active, [1])]
  {
    hide Contradictory;
    var a := Believe(proposition, [1]);
    assert [a][..0] == [];
    assert Run(clean, []) == State(map[], 1);
    assert Run(clean, [a]) == Step(clean, State(map[], 1), a);
  }

  /** The first belief gets number 1; when it names that number as its premise, neither the query nor the retraction
      comes to an end. */
  lemma OwnPremiseNeverEnds(clean: string -> string, proposition: string)
    ensures var m := Run(clean, [Believe(proposition, [1])]).beliefs;
            1 in m && m[1].status == Active && !Returns(m, 1) && !Ends(m, 1)
  {
    hide Steps, Returns, Ends, RestsOn, Run;
    OwnPremise(clean, proposition);
    var m := Run(clean, [Believe(proposition, [1])]).beliefs;
    OneStep(Premises(m), 1, 1);
    assert OnCycle(m, 1);
    RestsOnItself(m, 1);
    ReturnsExactly(m, 1);
    EndsExactly(m, 1);
  }
}
