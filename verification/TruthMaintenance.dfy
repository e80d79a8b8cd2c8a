/** The truth maintenance system: inference, cascading retraction and provenance. */
module TruthMaintenance {
  import opened Core
  import opened Digraph
  import opened TruthSpec

  // ----- When the cascade ends

  /** Beliefs that name `id` as a premise. */
  function Dependents(m: Beliefs, id: int): set<int> {
    set k | k in m && id in m[k].premises
  }

  /** The cascade from `id` needs fewer than `fuel` nested calls. */
  ghost predicate EndsWithin(m: Beliefs, id: int, fuel: nat)
    decreases fuel
  {
    fuel > 0 && forall k :: k in Dependents(m, id) ==> EndsWithin(m, k, fuel - 1)
  }

  ghost predicate Ends(m: Beliefs, id: int) {
    exists fuel: nat :: EndsWithin(m, id, fuel)
  }

  lemma {:induction false} MoreFuel(m: Beliefs, id: int, f: nat, g: nat)
    requires f <= g && EndsWithin(m, id, f)
    ensures EndsWithin(m, id, g)
    decreases f
  {
    forall k | k in Dependents(m, id)
      ensures EndsWithin(m, k, g - 1)
    {
      MoreFuel(m, k, f - 1, g - 1);
    }
  }

  /** Following a walk towards the target uses up fuel. */
  lemma {:induction false} WalkUsesFuel(m: Beliefs, a: int, b: int, n: nat, fuel: nat)
    requires Steps(Premises(m), a, b, n) && EndsWithin(m, b, fuel)
    ensures fuel > n && EndsWithin(m, a, fuel - n)
    decreases n
  {
    hide Steps;
    if n == 0 {
      NoWalk(m, a, b);
    } else {
      var c := StepsUnsnoc(Premises(m), a, b, n);
      assert c in Dependents(m, b);
      WalkUsesFuel(m, a, c, n - 1, fuel - 1);
    }
  }

  lemma NoWalk(m: Beliefs, a: int, b: int)
    requires Steps(Premises(m), a, b, 0)
    ensures a == b
  {
  }

  lemma {:induction false} CycleNeverEnds(m: Beliefs, c: int, n: nat, fuel: nat)
    requires n > 0 && Steps(Premises(m), c, c, n)
    ensures !EndsWithin(m, c, fuel)
    decreases fuel
  {
    hide Steps, EndsWithin;
    if EndsWithin(m, c, fuel) {
      WalkUsesFuel(m, c, c, n, fuel);
      CycleNeverEnds(m, c, n, fuel - n);
    }
  }

  /** One amount of fuel for a whole set. */
  lemma {:induction false} CommonFuel(m: Beliefs, ks: set<int>) returns (fuel: nat)
    requires forall k :: k in ks ==> Ends(m, k)
    ensures forall k :: k in ks ==> EndsWithin(m, k, fuel)
    decreases ks
  {
    hide EndsWithin;
    if ks == {} {
      return 0;
    }
    var k := Choose(ks);
    var rest := CommonFuel(m, ks - {k});
    var own: nat :| EndsWithin(m, k, own);
    fuel := rest + own;
    forall j | j in ks
      ensures EndsWithin(m, j, fuel)
    {
      MoreFuel(m, j, if j == k then own else rest, fuel);
    }
  }

  lemma Choose<T>(s: set<T>) returns (x: T)
    requires s != {}
    ensures x in s
  {
    x :| x in s;
  }

  /** `c` lies on a cycle of premises. */
  ghost predicate OnCycle(m: Beliefs, c: int) {
    exists n: nat :: n > 0 && Steps(Premises(m), c, c, n)
  }

  /** Something that rests on `id` rests on itself. */
  ghost predicate Entangled(m: Beliefs, id: int) {
    exists c :: c in m && RestsOn(m, c, id) && OnCycle(m, c)
  }

  /** The cascade from a belief ends exactly when nothing that rests on the belief rests on itself. */
  lemma EndsExactly(m: Beliefs, id: int)
    ensures Ends(m, id) <==> !Entangled(m, id)
  {
    hide Steps, EndsWithin, Ends, RestsOn, OnCycle;
    if c :| c in m && RestsOn(m, c, id) && OnCycle(m, c) {
      EntangledNeverEnds(m, id, c);
    } else {
      UntangledEnds(m, id);
    }
  }

  lemma EntangledNeverEnds(m: Beliefs, id: int, c: int)
    requires RestsOn(m, c, id) && OnCycle(m, c)
    ensures !Ends(m, id)
  {
    hide Steps, EndsWithin;
    var n := CycleLength(m, c);
    var k := WalkLength(m, c, id);
    forall fuel: nat
      ensures !EndsWithin(m, id, fuel)
    {
      if EndsWithin(m, id, fuel) {
        WalkUsesFuel(m, c, id, k, fuel);
        CycleNeverEnds(m, c, n, fuel - k);
      }
    }
  }

  lemma CycleLength(m: Beliefs, c: int) returns (n: nat)
    requires OnCycle(m, c)
    ensures n > 0 && Steps(Premises(m), c, c, n)
  {
    n :| n > 0 && Steps(Premises(m), c, c, n);
  }

  lemma WalkLength(m: Beliefs, k: int, id: int) returns (n: nat)
    requires RestsOn(m, k, id)
    ensures Steps(Premises(m), k, id, n)
  {
    n :| Steps(Premises(m), k, id, n);
  }

  /** The part of the beliefs that rests on `id`. */
  ghost function Above(m: Beliefs, id: int): Beliefs {
    map k | k in m && RestsOn(m, k, id) :: m[k]
  }

  lemma {:induction false} AboveWalks(m: Beliefs, id: int, a: int, b: int, n: nat)
    requires Steps(Premises(Above(m, id)), a, b, n)
    ensures Steps(Premises(m), a, b, n) && (n > 0 ==> a in Above(m, id))
    decreases n
  {
    hide Steps, RestsOn;
    var g := Premises(Above(m, id));
    if n == 0 {
      ZeroSteps(g, a, b);
      ZeroSteps(Premises(m), a, b);
    } else {
      var c := FirstStep(g, a, b, n);
      AboveWalks(m, id, c, b, n - 1);
      StepsCons(Premises(m), a, c, b, n - 1);
    }
  }

  lemma AboveAcyclic(m: Beliefs, id: int)
    requires !Entangled(m, id)
    ensures Acyclic(Premises(Above(m, id)))
  {
    hide Steps, RestsOn;
    forall c: int, n: nat | n > 0
      ensures !Steps(Premises(Above(m, id)), c, c, n)
    {
      if Steps(Premises(Above(m, id)), c, c, n) {
        CycleAbove(m, id, c, n);
      }
    }
  }

  lemma CycleAbove(m: Beliefs, id: int, c: int, n: nat)
    requires n > 0 && Steps(Premises(Above(m, id)), c, c, n)
    ensures Entangled(m, id)
  {
    hide Steps, RestsOn;
    AboveWalks(m, id, c, c, n);
    assert OnCycle(m, c);
  }

  lemma UntangledEnds(m: Beliefs, id: int)
    requires !Entangled(m, id)
    ensures Ends(m, id)
  {
    hide Steps, EndsWithin, Ends, RestsOn, Entangled;
    AboveAcyclic(m, id);
    var endless := set k | k in Above(m, id) && !Ends(m, k);
    if endless != {} {
      var k := SourceExists(Premises(Above(m, id)), endless);
      forall j | j in Dependents(m, k)
        ensures Ends(m, j)
      {
        RestsThrough(m, j, k, id);
        assert k in Out(Premises(Above(m, id)), j);
      }
      DependentsEnd(m, k);
    }
    RestsOnDependents(m, id, id);
    forall j | j in Dependents(m, id)
      ensures Ends(m, j)
    {
      RestsThrough(m, j, id, id);
      assert j !in endless;
    }
    DependentsEnd(m, id);
  }

  /** Whatever names `k` as a premise rests on what `k` rests on. */
  lemma RestsThrough(m: Beliefs, j: int, k: int, id: int)
    requires j in Dependents(m, k) && RestsOn(m, k, id)
    ensures RestsOn(m, j, id)
  {
    hide Steps;
    var n := WalkLength(m, k, id);
    StepsCons(Premises(m), j, k, id, n);
  }

  lemma DependentsEnd(m: Beliefs, k: int)
    requires forall j :: j in Dependents(m, k) ==> Ends(m, j)
    ensures Ends(m, k)
  {
    hide Ends;
    var fuel := CommonFuel(m, Dependents(m, k));
    assert EndsWithin(m, k, fuel + 1);
    Enough(m, k, fuel + 1);
  }

  lemma Enough(m: Beliefs, k: int, fuel: nat)
    requires EndsWithin(m, k, fuel)
    ensures Ends(m, k)
  {
  }

  /** Premises that only name earlier beliefs never entangle anything. */
  lemma EarlierEnds(m: Beliefs, id: int)
    requires Earlier(m)
    ensures Ends(m, id)
  {
    hide Steps, Ends;
    forall c | OnCycle(m, c)
      ensures false
    {
      var n := CycleLength(m, c);
      EarlierWalk(m, c, c, n);
    }
    EndsExactly(m, id);
  }

  lemma {:induction false} EarlierWalk(m: Beliefs, a: int, b: int, n: nat)
    requires Earlier(m) && Steps(Premises(m), a, b, n)
    ensures b <= a && (n > 0 ==> b < a)
    decreases n
  {
    hide Steps;
    if n == 0 {
      NoWalk(m, a, b);
    } else {
      var c := FirstStep(Premises(m), a, b, n);
      EarlierWalk(m, c, b, n - 1);
    }
  }

  // ----- The cascade

  /** Every premise that is a belief is an older one. */
  ghost predicate Earlier(m: Beliefs) {
    forall k, p :: k in m && p in m[k].premises ==> p < k
  }

  /** What rests on `id`: itself, and whatever rests on one of its dependents. */
  lemma RestsOnDependents(m: Beliefs, k: int, id: int)
    ensures RestsOn(m, k, id) <==> k == id || exists d :: d in Dependents(m, id) && RestsOn(m, k, d)
  {
    hide Steps;
    if RestsOn(m, k, id) && k != id {
      var n := WalkLength(m, k, id);
      if n == 0 {
        NoWalk(m, k, id);
      } else {
        var d := StepsUnsnoc(Premises(m), k, id, n);
        assert d in Dependents(m, id) && RestsOn(m, k, d);
      }
    }
    if d :| d in Dependents(m, id) && RestsOn(m, k, d) {
      var n := WalkLength(m, k, d);
      StepsSnoc(Premises(m), k, d, id, n);
    }
    if k == id {
      NoSteps(Premises(m), id);
    }
  }

  /** Retracted so far: the target, and what rests on the dependents in `ds`. */
  ghost predicate Cascaded(m: Beliefs, r: Beliefs, id: int, ds: set<int>) {
    && r.Keys == m.Keys
    && forall k :: k in m ==>
         r[k] == if k == id || Below(m, k, ds) then m[k].(status := Retracted) else m[k]
  }

  ghost predicate Below(m: Beliefs, k: int, ds: set<int>) {
    exists d :: d in ds && RestsOn(m, k, d)
  }

  lemma OneMoreDependent(m: Beliefs, r: Beliefs, s: Beliefs, id: int, ds: set<int>, d: int)
    requires Cascaded(m, r, id, ds) && s == Retract(r, d) && Premises(r) == Premises(m)
    ensures Cascaded(m, s, id, ds + {d})
  {
    hide Reaches;
    forall k | k in m
      ensures s[k] == if k == id || Below(m, k, ds + {d}) then m[k].(status := Retracted) else m[k]
    {
      assert RestsOn(r, k, d) <==> RestsOn(m, k, d);
      assert Below(m, k, ds + {d}) <==> Below(m, k, ds) || RestsOn(m, k, d) by {
        if RestsOn(m, k, d) {
          assert d in ds + {d};
        }
        if e :| e in ds && RestsOn(m, k, e) {
          assert e in ds + {d} && RestsOn(m, k, e);
        }
      }
    }
  }

  lemma CascadeDone(m: Beliefs, r: Beliefs, id: int)
    requires id in m && Cascaded(m, r, id, Dependents(m, id))
    ensures r == Retract(m, id)
  {
    hide RestsOn;
    forall k | k in m
      ensures r[k] == Retract(m, id)[k]
    {
      RestsOnDependents(m, k, id);
    }
  }

  lemma SamePremises(m: Beliefs, r: Beliefs)
    requires r.Keys == m.Keys && forall k :: k in m ==> r[k].premises == m[k].premises
    ensures Premises(r) == Premises(m)
  {
    assert Premises(r).Keys == Premises(m).Keys;
    assert forall k :: k in Premises(m) ==> Premises(r)[k] == Premises(m)[k];
  }

  // ----- The system

  datatype Contradiction = Contradiction(a: int, b: int)

  /** Every recorded contradiction names two beliefs that contradict each other. */
  ghost predicate Recorded(clean: string -> string, m: Beliefs, cs: seq<Contradiction>) {
    forall i :: 0 <= i < |cs| ==>
      cs[i].a in m && cs[i].b in m && Contradictory(clean, m[cs[i].a].proposition, m[cs[i].b].proposition)
  }

  class TruthMaintenanceSystem {
    const clean: string -> string
    var nextId: int
    var beliefs: Beliefs
    var contradictions: seq<Contradiction>

    ghost predicate Valid()
      reads this
    {
      && Consistent(clean, beliefs) && Recorded(clean, beliefs, contradictions)
      && nextId >= 1 && forall k :: k in beliefs ==> 1 <= k < nextId
    }

    constructor (clean: string -> string)
      ensures Valid() && beliefs == map[] && contradictions == [] && nextId == 1 && this.clean == clean
    {
      this.clean, nextId, beliefs, contradictions := clean, 1, map[], [];
    }

    /** Retracts the target, then whatever names it as a premise, and so on. */
    method RetractBelief(id: int) returns (found: bool)
      requires id in beliefs ==> Ends(beliefs, id)
      modifies this`beliefs
      ensures found <==> id in old(beliefs)
      ensures beliefs == if found then Retract(old(beliefs), id) else old(beliefs)
      ensures Consistent(clean, old(beliefs)) ==> Consistent(clean, beliefs)
    {
      hide EndsWithin, Retract, Consistent;
      if id !in beliefs {
        return false;
      }
      ghost var m := beliefs;
      ghost var fuel := FuelOf(m, id);
      Cascade(id, fuel);
      if Consistent(clean, m) {
        RetractConsistent(clean, m, id);
      }
      found := true;
    }

    /** The recursion, which nests less than `fuel` deep. */
    method Cascade(id: int, ghost fuel: nat)
      requires id in beliefs && EndsWithin(beliefs, id, fuel)
      modifies this`beliefs
      ensures beliefs == Retract(old(beliefs), id)
      decreases fuel
    {
      hide Retract, Cascaded;
      ghost var m := beliefs;
      Begin(m, id);
      beliefs := beliefs[id := beliefs[id].(status := Retracted)];
      var todo := Dependents(beliefs, id);
      SameDependents(m, beliefs, id);
      while todo != {}
        invariant todo <= Dependents(m, id)
        invariant Cascaded(m, beliefs, id, Dependents(m, id) - todo)
        decreases todo
      {
        var d := Pick(todo);
        Unchanged(m, beliefs, id, Dependents(m, id) - todo);
        SameFuel(m, beliefs, d, fuel - 1);
        ghost var r, done := beliefs, Dependents(m, id) - todo;
        Cascade(d, fuel - 1);
        OneMoreDependent(m, r, beliefs, id, done, d);
        todo := todo - {d};
        assert Dependents(m, id) - todo == done + {d};
      }
      assert Dependents(m, id) - {} == Dependents(m, id);
      CascadeDone(m, beliefs, id);
    }

    /** A new belief; it and every active belief it contradicts become contradicted, and each such pair is recorded. */
    method InferBelief(proposition: string, premises: seq<int>) returns (id: int, ghost found: seq<int>)
      requires Valid()
      modifies this`nextId, this`beliefs, this`contradictions
      ensures Valid() && id == old(nextId) && nextId == id + 1
      ensures beliefs == Infer(clean, old(beliefs), id, proposition, premises)
      ensures ConflictsAre(clean, old(beliefs), proposition, found)
      ensures contradictions == old(contradictions) + Pairs(found, id)
    {
      hide Consistent, Recorded, Infer, Conflicts;
      id := nextId;
      nextId := nextId + 1;
      var conflicting := FindConflicts(proposition);
      found := conflicting;
      ghost var m, cs := beliefs, contradictions;
      InferConsistent(clean, m, id, proposition, premises);
      RecordedAfter(clean, m, cs, id, proposition, premises, conflicting);
      InferKeys(clean, m, id, proposition, premises);
      var status := if conflicting == [] then Active else Contradicted;
      for i := 0 to |conflicting|
        invariant nextId == id + 1 && contradictions == cs + Pairs(conflicting[..i], id)
        invariant beliefs == Demoted(m, conflicting[..i])
      {
        assert conflicting[..i + 1] == conflicting[..i] + [conflicting[i]];
        DemoteOne(m, conflicting[..i], conflicting[i]);
        contradictions := contradictions + [Contradiction(conflicting[i], id)];
        if conflicting[i] in beliefs {
          beliefs := beliefs[conflicting[i] := beliefs[conflicting[i]].(status := Contradicted)];
        }
      }
      assert conflicting[..|conflicting|] == conflicting;
      InferIs(clean, m, id, proposition, premises, conflicting);
      beliefs := beliefs[id := Belief(proposition, status, premises)];
    }

    method FindConflicts(proposition: string) returns (found: seq<int>)
      ensures ConflictsAre(clean, beliefs, proposition, found)
    {
      hide Contradictory;
      found := [];
      var todo := beliefs.Keys;
      while todo != {}
        invariant todo <= beliefs.Keys && NoDuplicates(found)
        invariant forall k :: k in found <==> k in beliefs && k !in todo && Conflicts(clean, beliefs[k], proposition)
        decreases todo
      {
        var k := Pick(todo);
        todo := todo - {k};
        if Conflicts(clean, beliefs[k], proposition) {
          found := found + [k];
        }
      }
    }
  }

  /** Each active belief that contradicts the proposition, once. */
  ghost predicate ConflictsAre(clean: string -> string, m: Beliefs, proposition: string, found: seq<int>) {
    NoDuplicates(found) && forall k :: k in found <==> k in m && Conflicts(clean, m[k], proposition)
  }

  function Pairs(found: seq<int>, id: int): seq<Contradiction> {
    seq(|found|, i requires 0 <= i < |found| => Contradiction(found[i], id))
  }

  function Demoted(m: Beliefs, ks: seq<int>): Beliefs {
    map k | k in m :: if k in ks then m[k].(status := Contradicted) else m[k]
  }

  lemma DemoteOne(m: Beliefs, ks: seq<int>, k: int)
    ensures Demoted(m, ks + [k])
         == if k in m then Demoted(m, ks)[k := m[k].(status := Contradicted)] else Demoted(m, ks)
    ensures k in m ==>
              k in Demoted(m, ks) && Demoted(m, ks)[k].(status := Contradicted) == m[k].(status := Contradicted)
  {
  }

  lemma InferIs(clean: string -> string, m: Beliefs, id: int, proposition: string, premises: seq<int>, found: seq<int>)
    requires ConflictsAre(clean, m, proposition, found)
    ensures Infer(clean, m, id, proposition, premises)
         == Demoted(m, found)[id := Belief(proposition, if found == [] then Active else Contradicted, premises)]
  {
    hide Contradictory;
    if found != [] {
      var k := found[0];
      assert k in found;
      assert k in m && Conflicts(clean, m[k], proposition);
    }
    assert forall k :: k in m ==> (k in found <==> Conflicts(clean, m[k], proposition));
  }

  lemma InferKeys(clean: string -> string, m: Beliefs, id: int, proposition: string, premises: seq<int>)
    ensures Infer(clean, m, id, proposition, premises).Keys == m.Keys + {id}
  {
    hide Conflicts;
  }

  lemma RecordedAfter(clean: string -> string, m: Beliefs, cs: seq<Contradiction>, id: int, proposition: string,
                      premises: seq<int>, found: seq<int>)
    requires Recorded(clean, m, cs) && ConflictsAre(clean, m, proposition, found) && id !in m
    ensures Recorded(clean, Infer(clean, m, id, proposition, premises), cs + Pairs(found, id))
  {
    hide Contradictory;
    var r, all := Infer(clean, m, id, proposition, premises), cs + Pairs(found, id);
    forall i | 0 <= i < |all|
      ensures all[i].a in r && all[i].b in r && Contradictory(clean, r[all[i].a].proposition, r[all[i].b].proposition)
    {
      if i >= |cs| {
        assert all[i] == Contradiction(found[i - |cs|], id) && found[i - |cs|] in found;
      }
    }
  }

  lemma Begin(m: Beliefs, id: int)
    requires id in m
    ensures Cascaded(m, m[id := m[id].(status := Retracted)], id, {})
  {
  }

  lemma SameDependents(m: Beliefs, r: Beliefs, id: int)
    requires id in m && r == m[id := m[id].(status := Retracted)]
    ensures Dependents(r, id) == Dependents(m, id) && Dependents(m, id) - Dependents(m, id) == {}
  {
  }

  lemma FuelOf(m: Beliefs, id: int) returns (fuel: nat)
    requires Ends(m, id)
    ensures EndsWithin(m, id, fuel)
  {
    fuel :| EndsWithin(m, id, fuel);
  }

  /** How deep the cascade goes depends on the premises only. */
  lemma {:induction false} SameFuel(m: Beliefs, r: Beliefs, id: int, fuel: nat)
    requires r.Keys == m.Keys && (forall k :: k in m ==> r[k].premises == m[k].premises) && EndsWithin(m, id, fuel)
    ensures EndsWithin(r, id, fuel)
    decreases fuel
  {
    forall k | k in m
      ensures k in Dependents(r, id) <==> k in Dependents(m, id)
    {
      assert r[k].premises == m[k].premises;
    }
    forall k | k in Dependents(m, id)
      ensures EndsWithin(r, k, fuel - 1)
    {
      SameFuel(m, r, k, fuel - 1);
    }
  }

  lemma Unchanged(m: Beliefs, r: Beliefs, id: int, ds: set<int>)
    requires Cascaded(m, r, id, ds)
    ensures Premises(r) == Premises(m) && r.Keys == m.Keys && forall k :: k in m ==> r[k].premises == m[k].premises
  {
    hide Below;
    SamePremises(m, r);
  }
}
