/** Beliefs, contradiction and retraction as values. */
module TruthSpec {
  import opened Core
  import opened Digraph

  datatype Status = Active | Contradicted | Retracted

  datatype Belief = Belief(proposition: string, status: Status, premises: seq<int>)

  type Beliefs = map<int, Belief>

  // ----- Contradiction

  predicate ContainsAt(s: string, w: string, i: nat) {
    i + |w| <= |s| && s[i..i + |w|] == w
  }

  predicate Contains(s: string, w: string) {
    exists i :: 0 <= i <= |s| && ContainsAt(s, w, i)
  }

  const ANTONYMS := [("true", "false"), ("alive", "dead"), ("active", "inactive"), ("healthy", "critical"),
                     ("open", "closed")]

  /** On trimmed, lower-case propositions: one negates the other, or they use two sides of a pair of antonyms. */
  predicate Opposed(a: string, b: string) {
    || b == "not " + a || a == "not " + b
    || exists i :: 0 <= i < |ANTONYMS| &&
         ((Contains(a, ANTONYMS[i].0) && Contains(b, ANTONYMS[i].1))
          || (Contains(a, ANTONYMS[i].1) && Contains(b, ANTONYMS[i].0)))
  }

  /** Trimming and lower-casing follow the Unicode tables, so they are a parameter. */
  predicate Contradictory(clean: string -> string, a: string, b: string) {
    Opposed(clean(a), clean(b))
  }

  lemma Symmetric(clean: string -> string, a: string, b: string)
    ensures Contradictory(clean, a, b) <==> Contradictory(clean, b, a)
  {
    hide Contains;
  }

  /** A proposition contradicts itself exactly when it uses both sides of some pair of antonyms. */
  lemma SelfOpposedExactly(a: string)
    ensures Opposed(a, a) <==>
            exists i :: 0 <= i < |ANTONYMS| && Contains(a, ANTONYMS[i].0) && Contains(a, ANTONYMS[i].1)
  {
    hide Contains;
    assert |"not " + a| == |a| + 4;
  }

  /** "inactive" contains "active": every proposition with that word contradicts itself. */
  lemma InactiveOpposesItself(a: string)
    requires Contains(a, "inactive")
    ensures Opposed(a, a)
  {
    var i :| 0 <= i <= |a| && ContainsAt(a, "inactive", i);
    assert a[i + 2..i + 8] == a[i..i + 8][2..8];
    assert "inactive"[2..8] == "active";
    assert ContainsAt(a, "active", i + 2);
    assert Contains(a, ANTONYMS[2].0) && Contains(a, ANTONYMS[2].1);
  }

  // ----- Inferring a belief

  predicate Conflicts(clean: string -> string, b: Belief, proposition: string) {
    b.status == Active && Contradictory(clean, b.proposition, proposition)
  }

  ghost predicate AnyConflict(clean: string -> string, m: Beliefs, proposition: string) {
    exists k :: k in m && Conflicts(clean, m[k], proposition)
  }

  /** The beliefs after inferring one more: it and whatever it contradicts lose their standing. */
  ghost function Infer(clean: string -> string, m: Beliefs, id: int, proposition: string, premises: seq<int>): Beliefs {
    (map k | k in m :: if Conflicts(clean, m[k], proposition) then m[k].(status := Contradicted) else m[k])
    [id := Belief(proposition, if AnyConflict(clean, m, proposition) then Contradicted else Active, premises)]
  }

  /** No two active beliefs contradict each other. */
  ghost predicate Consistent(clean: string -> string, m: Beliefs) {
    forall a, b :: a in m && b in m && a != b && m[a].status == Active && m[b].status == Active
      ==> !Contradictory(clean, m[a].proposition, m[b].proposition)
  }

  lemma InferConsistent(clean: string -> string, m: Beliefs, id: int, proposition: string, premises: seq<int>)
    requires Consistent(clean, m) && id !in m
    ensures Consistent(clean, Infer(clean, m, id, proposition, premises))
  {
    hide Contradictory;
    var r := Infer(clean, m, id, proposition, premises);
    forall a, b | a in r && b in r && a != b && r[a].status == Active && r[b].status == Active
      ensures !Contradictory(clean, r[a].proposition, r[b].proposition)
    {
      Symmetric(clean, r[a].proposition, r[b].proposition);
      if a == id {
        assert r[b] == m[b] && !Conflicts(clean, m[b], proposition);
      } else if b == id {
        assert r[a] == m[a] && !Conflicts(clean, m[a], proposition);
      } else {
        assert r[a] == m[a] && r[b] == m[b];
      }
    }
  }

  // ----- Retracting a belief

  /** Each belief leads to its premises. */
  function Premises(m: Beliefs): Adj<int> {
    map k | k in m :: m[k].premises
  }

  /** `k` rests on `id`, directly or through other beliefs. */
  ghost predicate RestsOn(m: Beliefs, k: int, id: int) {
    Reaches(Premises(m), k, id)
  }

  /** Exactly the target and what rests on it is retracted. */
  ghost function Retract(m: Beliefs, id: int): Beliefs {
    map k | k in m :: if RestsOn(m, k, id) then m[k].(status := Retracted) else m[k]
  }

  lemma RetractConsistent(clean: string -> string, m: Beliefs, id: int)
    requires Consistent(clean, m)
    ensures Consistent(clean, Retract(m, id))
  {
    hide Contradictory, RestsOn;
    var r := Retract(m, id);
    forall a, b | a in r && b in r && a != b && r[a].status == Active && r[b].status == Active
      ensures !Contradictory(clean, r[a].proposition, r[b].proposition)
    {
      assert r[a] == m[a] && r[b] == m[b];
    }
  }

  datatype State = State(beliefs: Beliefs, nextId: int)

  /** Other knowledge items only use up identifiers. */
  datatype Action = Believe(proposition: string, premises: seq<int>) | Withdraw(id: int) | Other

  ghost function Step(clean: string -> string, s: State, a: Action): State {
    match a
    case Believe(p, premises) => State(Infer(clean, s.beliefs, s.nextId, p, premises), s.nextId + 1)
    case Withdraw(id) => if id in s.beliefs then s.(beliefs := Retract(s.beliefs, id)) else s
    case Other => s.(nextId := s.nextId + 1)
  }

  ghost function Run(clean: string -> string, actions: seq<Action>): State {
    if actions == [] then State(map[], 1)
    else Step(clean, Run(clean, actions[..|actions| - 1]), actions[|actions| - 1])
  }

  /** At every reachable state no two active beliefs contradict each other. */
  lemma {:induction false} RunConsistent(clean: string -> string, actions: seq<Action>)
    ensures Consistent(clean, Run(clean, actions).beliefs)
    ensures forall k :: k in Run(clean, actions).beliefs ==> 1 <= k < Run(clean, actions).nextId
    ensures Run(clean, actions).nextId >= 1
  {
    hide Consistent, RestsOn, Conflicts, AnyConflict;
    if actions == [] {
      NothingConsistent(clean);
    } else {
      var s, a := Run(clean, actions[..|actions| - 1]), actions[|actions| - 1];
      RunConsistent(clean, actions[..|actions| - 1]);
      match a
      case Believe(p, premises) => InferConsistent(clean, s.beliefs, s.nextId, p, premises);
      case Withdraw(id) => RetractConsistent(clean, s.beliefs, id);
      case Other =>
    }
  }

  lemma NothingConsistent(clean: string -> string)
    ensures Consistent(clean, map[])
  {
  }
}
