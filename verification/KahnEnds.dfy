/** When Kahn's loop comes to an end at all: exactly when `effects` has no cycle. */
module KahnEnds {
  import opened Core
  import opened Bits
  import opened Digraph
  import opened CausalSpec
  import opened KahnSpec

  ghost predicate EndsAt(g: Graph, k: Kahn, n: nat) {
    StepN(g.effects, k, n).queue == []
  }

  // ----- A loop that ends has seen no cycle

  lemma {:induction false} HitsApart(effects: Adj<EventId>, s: seq<EventId>, u: EventId, v: EventId)
    requires v in Out(effects, u)
    ensures Hits(effects, s, v) >= Count(s, u) + |Hitters(effects, s, v) - {u}|
  {
    hide Hitters, Out;
    if s != [] {
      var init, x := s[..|s| - 1], s[|s| - 1];
      HitsApart(effects, init, u, v);
      HittersSnoc(effects, init, x, v);
      assert s == init + [x];
      var before := Hitters(effects, init, v);
      Apart(before, u, x);
      if v in Out(effects, x) {
        assert Hitters(effects, s, v) == before + {x};
      } else {
        assert Hitters(effects, s, v) == before + {};
      }
    } else {
      assert Hitters(effects, s, v) == {} by {
        NoHitters(effects, v);
      }
    }
  }

  lemma NoHitters(effects: Adj<EventId>, v: EventId)
    ensures Hitters(effects, [], v) == {}
  {
  }

  lemma HittersSnoc(effects: Adj<EventId>, init: seq<EventId>, x: EventId, v: EventId)
    ensures Hitters(effects, init + [x], v) == Hitters(effects, init, v) + if v in Out(effects, x) then {x} else {}
  {
  }

  lemma Apart(s: set<EventId>, u: EventId, x: EventId)
    ensures |(s + {x}) - {u}| <= |s - {u}| + if x == u then 0 else 1
    ensures |(s + {}) - {u}| == |s - {u}|
  {
    assert s + {} == s;
    if x == u {
      assert (s + {x}) - {u} == s - {u};
    } else {
      assert (s + {x}) - {u} == (s - {u}) + {x};
    }
  }

  /** Once all causes of `v` are out, it has come out at least as often as any event that lists it as an effect,
      and more often when that effect is stale. */
  lemma CountsRiseAt(g: Graph, k: Kahn, u: EventId, v: EventId)
    requires Sound(g) && Counted(g, k) && k.queue == []
    requires u in Nodes(g.causes) && v in Out(g.effects, u)
    ensures Count(k.order, v) >= Count(k.order, u) + if u in Out(g.causes, v) then 0 else 1
  {
    hide Acyclic, Hits, Count, Nodes;
    EndedIsComplete(g, k);
    CausesKnown(g, v);
    HitsApart(g.effects, k.order, u, v);
    SortedNoDuplicates(Out(g.causes, v));
    ElementsSize(Out(g.causes, v));
    var hit, all := Hitters(g.effects, k.order, v), Elements(Out(g.causes, v));
    assert all - {u} <= hit - {u};
    SubsetSize(all - {u}, hit - {u});
    assert u in all <==> u in Out(g.causes, v);
    assert |all - {u}| == |all| - if u in all then 1 else 0;
    assert k.Pushed() == k.order && v in k.deg;
    assert CountedAt(g, k, v);
  }

  lemma CausesKnown(g: Graph, v: EventId)
    requires Sound(g)
    ensures forall c :: c in Out(g.causes, v) ==> c in Nodes(g.causes)
    ensures forall u :: v in Out(g.effects, u) ==> v in Nodes(g.causes)
  {
    hide Acyclic;
  }

  /** Along effects the counts rise; where they do not, the walk is a walk of causes backwards. */
  lemma {:induction false} CountsRise(g: Graph, k: Kahn, a: EventId, b: EventId, n: nat)
    requires Sound(g) && Counted(g, k) && k.queue == [] && a in Nodes(g.causes) && Steps(g.effects, a, b, n)
    ensures Count(k.order, a) <= Count(k.order, b)
    ensures Count(k.order, a) == Count(k.order, b) ==> Steps(g.causes, b, a, n)
    decreases n
  {
    hide *;
    if n == 0 {
      ZeroSteps(g.effects, a, b);
      ZeroSteps(g.causes, b, a);
    } else {
      var m := FirstStep(g.effects, a, b, n);
      CausesKnown(g, m);
      CountsRiseAt(g, k, a, m);
      CountsRise(g, k, m, b, n - 1);
      if Count(k.order, a) == Count(k.order, b) {
        StepsSnoc(g.causes, b, m, a, n - 1);
      }
    }
  }

  lemma EndedIsAcyclic(g: Graph, k: Kahn)
    requires Sound(g) && Counted(g, k) && k.queue == []
    ensures Acyclic(g.effects)
  {
    hide Steps, Count, Counted;
    forall e, n: nat | n > 0 && Steps(g.effects, e, e, n)
      ensures false
    {
      var p := StepsUnsnoc(g.effects, e, e, n);
      CausesKnown(g, e);
      CountsRise(g, k, e, e, n);
    }
  }

  // ----- Without a cycle the number of walks from what is queued falls

  /** The weight of a list of nodes. */
  ghost function Total<T>(w: map<T, int>, row: seq<T>): int {
    if row == [] then 0
    else
      var x := row[|row| - 1];
      Total(w, row[..|row| - 1]) + if x in w then w[x] else 0
  }

  lemma {:induction false} TotalAppend<T>(w: map<T, int>, a: seq<T>, b: seq<T>)
    ensures Total(w, a + b) == Total(w, a) + Total(w, b)
  {
    if b == [] {
      assert a + b == a;
    } else {
      var x := b[|b| - 1];
      TotalAppend(w, a, b[..|b| - 1]);
      assert (a + b)[..|a + b| - 1] == a + b[..|b| - 1];
    }
  }

  lemma {:induction false} TotalSame<T>(w: map<T, int>, m: T, x: int, row: seq<T>)
    requires m !in row
    ensures Total(w[m := x], row) == Total(w, row)
  {
    if row != [] {
      TotalSame(w, m, x, row[..|row| - 1]);
      assert row[|row| - 1] in row;
    }
  }

  ghost predicate Positive<T>(w: map<T, int>) {
    forall v :: v in w ==> w[v] >= 1
  }

  lemma {:induction false} TotalNatural<T>(w: map<T, int>, row: seq<T>)
    requires Positive(w)
    ensures Total(w, row) >= 0
  {
    if row != [] {
      TotalNatural(w, row[..|row| - 1]);
    }
  }

  ghost predicate Within<T>(row: seq<T>, s: set<T>) {
    forall x :: x in row ==> x in s
  }

  ghost predicate ClosedUnder<T>(g: Adj<T>, s: set<T>) {
    forall v :: v in s ==> Within(Out(g, v), s)
  }

  /** Each node weighs as much as its row and one more: the number of walks that start in it. */
  ghost predicate Weighs<T>(g: Adj<T>, w: map<T, int>) {
    forall v :: v in w ==> w[v] == 1 + Total(w, Out(g, v))
  }

  /** No list of distinct nodes weighs `bound`. */
  ghost predicate Below<T(!new)>(w: map<T, int>, bound: int) {
    forall row :: NoDuplicates(row) && Within(row, w.Keys) ==> Total(w, row) < bound
  }

  ghost predicate RowsOnce<T(!new)>(g: Adj<T>) {
    forall v :: NoDuplicates(Out(g, v))
  }

  /** An acyclic graph has such weights, and on `n` nodes they stay below the `n`-th power of two. */
  lemma {:induction false} Weights<T(!new)>(g: Adj<T>, s: set<T>) returns (w: map<T, int>)
    requires Acyclic(g) && RowsOnce(g) && ClosedUnder(g, s)
    ensures w.Keys == s && Positive(w) && Weighs(g, w) && Below(w, Pow2(|s|))
    decreases s
  {
    hide Acyclic, Below, Total, RowsOnce, ClosedUnder, Within, Pow2;
    if s == {} {
      w := map[];
      NothingWeighs(w);
      NoPower();
    } else {
      hide Positive, Weighs;
      var m := SourceExists(g, s);
      ClosedWithout(g, s, m);
      var v := Weights(g, s - {m});
      w := v[m := 1 + Total(v, Out(g, m))];
      OneMoreWeighs(g, s, m, v, Pow2(|s - {m}|));
      NextPower(s, m);
    }
  }

  lemma NoPower()
    ensures Pow2(0) == 1
  {
  }

  lemma NextPower<T>(s: set<T>, m: T)
    requires m in s
    ensures Pow2(|s|) == 2 * Pow2(|s - {m}|)
  {
    assert |s| == |s - {m}| + 1;
  }

  lemma NothingWeighs<T(!new)>(w: map<T, int>)
    requires w == map[]
    ensures Below(w, 1)
  {
    forall row: seq<T>
      ensures Total(w, row) == 0
    {
      TotalNothing(w, row);
    }
  }

  lemma {:induction false} TotalNothing<T>(w: map<T, int>, row: seq<T>)
    requires w == map[]
    ensures Total(w, row) == 0
  {
    if row != [] {
      TotalNothing(w, row[..|row| - 1]);
    }
  }

  lemma ClosedWithout<T>(g: Adj<T>, s: set<T>, m: T)
    requires ClosedUnder(g, s) && m in s && forall y :: y in s ==> m !in Out(g, y)
    ensures ClosedUnder(g, s - {m}) && Within(Out(g, m), s - {m})
  {
  }

  lemma OneMoreWeighs<T(!new)>(g: Adj<T>, s: set<T>, m: T, v: map<T, int>, bound: int)
    requires m in s && v.Keys == s - {m} && RowsOnce(g) && (forall y :: y in s ==> m !in Out(g, y))
    requires Within(Out(g, m), s - {m}) && Positive(v) && Weighs(g, v) && Below(v, bound)
    ensures var w := v[m := 1 + Total(v, Out(g, m))];
            w.Keys == s && Positive(w) && Weighs(g, w) && Below(w, 2 * bound)
  {
    hide Total, NoDuplicates;
    var w := v[m := 1 + Total(v, Out(g, m))];
    TotalNatural(v, Out(g, m));
    forall y | y in w
      ensures w[y] == 1 + Total(w, Out(g, y))
    {
      TotalSame(v, m, w[m], Out(g, y));
    }
    assert Total(v, Out(g, m)) < bound;
    forall row | NoDuplicates(row) && Within(row, w.Keys)
      ensures Total(w, row) < 2 * bound
    {
      RowBelow(v, m, w[m], row, bound);
    }
  }

  lemma RowBelow<T(!new)>(v: map<T, int>, m: T, x: int, row: seq<T>, bound: int)
    requires m !in v && x <= bound && bound >= 0 && Below(v, bound)
    requires NoDuplicates(row) && Within(row, v.Keys + {m})
    ensures Total(v[m := x], row) < 2 * bound
  {
    if i :| 0 <= i < |row| && row[i] == m {
      var a, b := row[..i], row[i + 1..];
      Cut(v, m, row, i);
      assert row == a + [m] + b;
      TotalAppend(v[m := x], a + [m], b);
      TotalAppend(v[m := x], a, [m]);
      TotalSame(v, m, x, a);
      TotalSame(v, m, x, b);
      TotalAppend(v, a, b);
      One(v[m := x], m);
    } else {
      assert m !in row;
      TotalSame(v, m, x, row);
      assert Within(row, v.Keys);
    }
  }

  lemma One<T>(w: map<T, int>, m: T)
    requires m in w
    ensures Total(w, [m]) == w[m]
  {
    assert [m][..0] == [];
  }

  lemma Cut<T>(v: map<T, int>, m: T, row: seq<T>, i: nat)
    requires i < |row| && row[i] == m && NoDuplicates(row) && Within(row, v.Keys + {m})
    ensures m !in row[..i] && m !in row[i + 1..]
    ensures NoDuplicates(row[..i] + row[i + 1..]) && Within(row[..i] + row[i + 1..], v.Keys)
  {
    var a, b := row[..i], row[i + 1..];
    assert forall j :: 0 <= j < |a| ==> a[j] == row[j];
    assert forall j :: 0 <= j < |b| ==> b[j] == row[i + 1 + j];
    forall x | x in a + b
      ensures x in v.Keys
    {
      assert x in row;
      assert x != m;
    }
  }

  lemma {:induction false} RelaxTotal(w: map<EventId, int>, k: Kahn, vs: seq<EventId>)
    requires Positive(w)
    ensures Total(w, Relax(k, vs).queue) <= Total(w, k.queue) + Total(w, vs)
  {
    if vs != [] {
      var init, x := vs[..|vs| - 1], vs[|vs| - 1];
      RelaxTotal(w, k, init);
      var t := Relax(k, init);
      assert (t.queue + [x])[..|t.queue|] == t.queue;
    }
  }

  lemma RoundFalls(g: Graph, k: Kahn, w: map<EventId, int>)
    requires Positive(w) && Weighs(g.effects, w) && k.queue != [] && k.queue[0] in w
    ensures Total(w, Step(g.effects, k).queue) < Total(w, k.queue)
  {
    hide Relax, Total, Positive;
    var x := k.queue[0];
    RelaxTotal(w, Pop(k), Out(g.effects, x));
    assert k.queue == [x] + k.queue[1..];
    TotalAppend(w, [x], k.queue[1..]);
    One(w, x);
  }

  lemma {:induction false} StepNFalls(g: Graph, k: Kahn, w: map<EventId, int>, n: nat)
    requires Sound(g) && Initial(g.causes, k) && w.Keys == Nodes(g.causes) && Positive(w) && Weighs(g.effects, w)
    ensures var t := StepN(g.effects, k, n);
            t.queue == [] || Total(w, t.queue) + n <= Total(w, k.queue)
  {
    hide Sound, Initial, Nodes, Positive, Weighs, Total, Step;
    if n > 0 {
      StepNFalls(g, k, w, n - 1);
      StepNCounted(g, k, n - 1);
      var t := StepN(g.effects, k, n - 1);
      if t.queue != [] {
        assert t.queue[0] in t.queue && t.queue[0] in t.Pushed();
        RoundFalls(g, t, w);
      }
    }
  }

  /** Without a cycle in `effects` the loop ends, after fewer rounds than the number of sets of known events. */
  lemma AcyclicEnds(g: Graph, k: Kahn)
    requires Sound(g) && Initial(g.causes, k) && Acyclic(g.effects)
    ensures EndsAt(g, k, Pow2(|Nodes(g.causes)|))
  {
    hide Acyclic, StepN, Total, Pow2, Counted;
    var n := Pow2(|Nodes(g.causes)|);
    EffectsKnown(g);
    var w := Weights(g.effects, Nodes(g.causes));
    StepNFalls(g, k, w, n);
    TotalNatural(w, StepN(g.effects, k, n).queue);
    assert Within(k.queue, w.Keys);
  }

  lemma EffectsKnown(g: Graph)
    requires Sound(g)
    ensures RowsOnce(g.effects) && ClosedUnder(g.effects, Nodes(g.causes))
  {
    hide Acyclic;
  }

  /** The loop comes to an end exactly when `effects` has no cycle. */
  lemma EndsExactly(g: Graph, k: Kahn)
    requires Sound(g) && Initial(g.causes, k)
    ensures (exists n: nat :: EndsAt(g, k, n)) <==> Acyclic(g.effects)
  {
    hide Acyclic, Sound, Initial, Pow2, StepN, Counted;
    if Acyclic(g.effects) {
      AcyclicEnds(g, k);
    }
    if n: nat :| EndsAt(g, k, n) {
      StepNCounted(g, k, n);
      EndedIsAcyclic(g, StepN(g.effects, k, n));
    }
  }
}
