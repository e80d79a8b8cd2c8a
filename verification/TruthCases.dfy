/** Which two propositions a system holds against each other, told by their texts. */
module TruthCases {
  import opened Core
  import opened Digraph
  import opened TruthSpec
  import opened TruthMaintenance

  /** `w` stands somewhere in `s`. */
  ghost predicate Has(s: string, w: string) {
    exists u, v :: s == u + w + v
  }

  /** One text is the other with "not " in front, or each has one of two opposite words. */
  ghost predicate Clash(a: string, b: string) {
    || b == "not " + a || a == "not " + b
    || (Has(a, "true") && Has(b, "false")) || (Has(a, "false") && Has(b, "true"))
    || (Has(a, "alive") && Has(b, "dead")) || (Has(a, "dead") && Has(b, "alive"))
    || (Has(a, "active") && Has(b, "inactive")) || (Has(a, "inactive") && Has(b, "active"))
    || (Has(a, "healthy") && Has(b, "critical")) || (Has(a, "critical") && Has(b, "healthy"))
    || (Has(a, "open") && Has(b, "closed")) || (Has(a, "closed") && Has(b, "open"))
  }

  lemma HasExactly(s: string, w: string)
    ensures Has(s, w) <==> Contains(s, w)
  {
    if Contains(s, w) {
      var i :| 0 <= i <= |s| && ContainsAt(s, w, i);
      assert s == s[..i] + w + s[i + |w|..];
    }
    forall u: string, v: string | s == u + w + v
      ensures Contains(s, w)
    {
      assert ContainsAt(s, w, |u|);
    }
  }

  /** The code's test is that relation. */
  lemma OpposedExactly(a: string, b: string)
    ensures Opposed(a, b) <==> Clash(a, b)
  {
    hide Has, Contains;
    forall w
      ensures Has(a, w) <==> Contains(a, w)
      ensures Has(b, w) <==> Contains(b, w)
    {
      HasExactly(a, w);
      HasExactly(b, w);
    }
    assert ANTONYMS[0] == ("true", "false") && ANTONYMS[1] == ("alive", "dead");
    assert ANTONYMS[2] == ("active", "inactive") && ANTONYMS[3] == ("healthy", "critical");
    assert ANTONYMS[4] == ("open", "closed") && |ANTONYMS| == 5;
  }

  /** Inferring a belief: exactly the active beliefs whose texts clash with it become contradicted, all others keep
      their record, and the new one is active exactly when there is no such belief. */
  lemma InferExactly(clean: string -> string, m: Beliefs, id: int, p: string, premises: seq<int>)
    requires id !in m
    ensures var r := Infer(clean, m, id, p, premises);
            && r.Keys == m.Keys + {id} && r[id].proposition == p && r[id].premises == premises
            && (forall k :: k in m ==>
                  r[k] == if m[k].status == Active && Clash(clean(m[k].proposition), clean(p))
                          then Belief(m[k].proposition, Contradicted, m[k].premises) else m[k])
            && (r[id].status == Active || r[id].status == Contradicted)
            && (r[id].status == Contradicted <==>
                  exists k :: k in m && m[k].status == Active && Clash(clean(m[k].proposition), clean(p)))
  {
    hide Clash, Opposed;
    forall k | k in m
      ensures Conflicts(clean, m[k], p) <==> m[k].status == Active && Clash(clean(m[k].proposition), clean(p))
    {
      OpposedExactly(clean(m[k].proposition), clean(p));
    }
  }

  /** Two beliefs in an empty system: they stand, unless their trimmed lower-case texts clash; then both are
      contradicted and the pair is on record. */
  method TwoBeliefs(clean: string -> string, p: string, q: string) returns (sys: TruthMaintenanceSystem)
    ensures fresh(sys)
    ensures var status := if Clash(clean(p), clean(q)) then Contradicted else Active;
            sys.beliefs == map[1 := Belief(p, status, []), 2 := Belief(q, status, [])]
    ensures sys.contradictions == if Clash(clean(p), clean(q)) then [Contradiction(1, 2)] else []
  {
    hide Clash, Opposed, Consistent, Recorded;
    sys := new TruthMaintenanceSystem(clean);
    var one, f1 := sys.InferBelief(p, []);
    Alone(clean, p, f1);
    var two, f2 := sys.InferBelief(q, []);
    OpposedExactly(clean(p), clean(q));
    Second(clean, p, q, f2);
  }

  lemma First<T>(s: seq<T>) returns (x: T)
    requires s != []
    ensures x in s
  {
    x := s[0];
  }

  lemma Alone(clean: string -> string, p: string, found: seq<int>)
    requires ConflictsAre(clean, map[], p, found)
    ensures Infer(clean, map[], 1, p, []) == map[1 := Belief(p, Active, [])] && found == [] && Pairs(found, 1) == []
  {
    hide Contradictory;
    if found != [] {
      var k := First(found);
    }
  }

  lemma Second(clean: string -> string, p: string, q: string, found: seq<int>)
    requires ConflictsAre(clean, map[1 := Belief(p, Active, [])], q, found)
    ensures var clash := Contradictory(clean, p, q);
            && found == (if clash then [1] else [])
            && Infer(clean, map[1 := Belief(p, Active, [])], 2, q, []) ==
               (var status := if clash then Contradicted else Active;
                map[1 := Belief(p, status, []), 2 := Belief(q, status, [])])
            && [] + Pairs(found, 2) == if clash then [Contradiction(1, 2)] else []
  {
    hide Contradictory;
    var m := map[1 := Belief(p, Active, [])];
    assert Conflicts(clean, m[1], q) <==> Contradictory(clean, p, q);
    assert AnyConflict(clean, m, q) <==> Contradictory(clean, p, q);
    assert 1 in found <==> Contradictory(clean, p, q);
    OnlyOne(found);
  }

  lemma OnlyOne(found: seq<int>)
    requires NoDuplicates(found) && forall k :: k in found ==> k == 1
    ensures found == if 1 in found then [1] else []
  {
    if found != [] {
      var k := First(found);
      assert found[|found| - 1] in found && found[0] in found;
    }
  }
}
