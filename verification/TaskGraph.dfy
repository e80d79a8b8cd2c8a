/** Cycle detection over task dependencies: Kahn's count with a stack, dependencies possibly repeated. */
module TaskGraph {
  import opened Core
  import opened Digraph

  /** How many positions hold something not yet done. */
  ghost function Remaining(s: seq<int>, done: seq<int>): nat {
    if s == [] then 0 else Remaining(s[..|s| - 1], done) + if s[|s| - 1] in done then 0 else 1
  }

  lemma {:induction false} RemainingAfter(s: seq<int>, done: seq<int>, u: int)
    requires u !in done
    ensures Remaining(s, done + [u]) == Remaining(s, done) - Count(s, u)
  {
    if s != [] {
      RemainingAfter(s[..|s| - 1], done, u);
    }
  }

  lemma {:induction false} RemainingZero(s: seq<int>, done: seq<int>)
    ensures Remaining(s, done) == 0 <==> forall x :: x in s ==> x in done
  {
    if s != [] {
      var init, last := s[..|s| - 1], s[|s| - 1];
      RemainingZero(init, done);
      assert s == init + [last];
      assert forall x :: x in s <==> x in init || x == last;
    }
  }

  lemma {:induction false} RemainingAll(s: seq<int>)
    ensures Remaining(s, []) == |s|
  {
    if s != [] {
      RemainingAll(s[..|s| - 1]);
    }
  }

  /** Open dependency counts, tasks whose count is zero, and tasks taken off the stack. */
  datatype Kahn = Kahn(degree: map<int, int>, stack: seq<int>, done: seq<int>) {
    ghost function Seen(): seq<int> {
      done + stack
    }
  }

  function RelaxOne(k: Kahn, v: int): Kahn {
    if v !in k.degree then k
    else
      var d := k.degree[v] - 1;
      k.(degree := k.degree[v := d], stack := if d == 0 then k.stack + [v] else k.stack)
  }

  function Relax(k: Kahn, vs: seq<int>): Kahn {
    if vs == [] then k else RelaxOne(Relax(k, vs[..|vs| - 1]), vs[|vs| - 1])
  }

  function Pop(k: Kahn): Kahn
    requires k.stack != []
  {
    k.(stack := k.stack[..|k.stack| - 1], done := k.done + [k.stack[|k.stack| - 1]])
  }

  /** Exactly the tasks with a zero count have been seen, each once. */
  ghost predicate Tidy(k: Kahn) {
    && NoDuplicates(k.Seen())
    && (forall v :: v in k.Seen() ==> v in k.degree)
    && (forall v :: v in k.degree ==> k.degree[v] >= 0 && (v in k.Seen() <==> k.degree[v] == 0))
  }

  lemma RelaxOneTidy(k: Kahn, v: int)
    requires Tidy(k) && v in k.degree && k.degree[v] > 0
    ensures Tidy(RelaxOne(k, v)) && RelaxOne(k, v).degree == k.degree[v := k.degree[v] - 1]
    ensures RelaxOne(k, v).done == k.done
  {
    var t := RelaxOne(k, v);
    if k.degree[v] == 1 {
      assert t.Seen() == k.Seen() + [v];
    } else {
      assert t.Seen() == k.Seen();
    }
  }

  lemma {:induction false} RelaxTidy(k: Kahn, vs: seq<int>)
    requires Tidy(k)
    requires forall v :: v in vs ==> v in k.degree
    requires forall v :: v in k.degree ==> Count(vs, v) <= k.degree[v]
    ensures var t := Relax(k, vs);
            && Tidy(t) && t.done == k.done && t.degree.Keys == k.degree.Keys
            && forall v :: v in k.degree ==> t.degree[v] == k.degree[v] - Count(vs, v)
  {
    hide Tidy;
    if vs != [] {
      var init, last := vs[..|vs| - 1], vs[|vs| - 1];
      assert vs == init + [last];
      assert forall v :: v in k.degree ==> Count(init, v) <= Count(vs, v);
      RelaxTidy(k, init);
      RelaxOneTidy(Relax(k, init), last);
    }
  }

  // ----- What the loop keeps

  ghost predicate Closed(deps: Adj<int>) {
    forall v, c :: v in deps && c in deps[v] ==> c in deps
  }

  /** `adj` lists each dependent once for each time it names the task. */
  ghost predicate Reverses(adj: Adj<int>, deps: Adj<int>) {
    && adj.Keys == deps.Keys
    && (forall u, v :: u in adj && v in adj[u] ==> v in deps)
    && (forall u, v :: u in adj && v in deps ==> Count(adj[u], v) == Count(deps[v], u))
  }

  ghost predicate DepsFirst(deps: Adj<int>, order: seq<int>) {
    forall j, c :: 0 <= j < |order| && c in Out(deps, order[j]) ==> c in order[..j]
  }

  ghost predicate Inv(deps: Adj<int>, k: Kahn) {
    && Tidy(k) && k.degree.Keys == deps.Keys
    && (forall v :: v in deps ==> k.degree[v] == Remaining(deps[v], k.done))
    && DepsFirst(deps, k.done)
  }

  lemma PopTidy(k: Kahn)
    requires Tidy(k) && k.stack != []
    ensures Tidy(Pop(k)) && k.stack[|k.stack| - 1] !in k.done && k.stack[|k.stack| - 1] in k.degree
    ensures k.degree[k.stack[|k.stack| - 1]] == 0
  {
    var n := |k.stack| - 1;
    var u := k.stack[n];
    assert k.stack == k.stack[..n] + [u];
    var t := Pop(k);
    assert k.Seen()[|k.done| + n] == u;
    assert forall i :: 0 <= i < |k.done| ==> k.Seen()[i] == k.done[i];
    assert NoDuplicates(t.Seen()) by {
      assert |t.Seen()| == |k.Seen()|;
      assert forall i :: 0 <= i < |k.done| ==> t.Seen()[i] == k.Seen()[i];
      assert t.Seen()[|k.done|] == u;
      assert forall i :: |k.done| < i < |t.Seen()| ==> t.Seen()[i] == k.Seen()[i - 1];
    }
    assert forall v :: v in t.Seen() <==> v in k.Seen();
  }

  lemma StepInv(deps: Adj<int>, adj: Adj<int>, k: Kahn)
    requires Closed(deps) && Reverses(adj, deps) && Inv(deps, k) && k.stack != []
    ensures k.stack[|k.stack| - 1] in adj && k.stack[|k.stack| - 1] !in k.done
    ensures var t := Relax(Pop(k), adj[k.stack[|k.stack| - 1]]);
            Inv(deps, t) && t.done == k.done + [k.stack[|k.stack| - 1]]
  {
    hide Tidy;
    PopTidy(k);
    var u := k.stack[|k.stack| - 1];
    var p := Pop(k);
    forall v | v in deps
      ensures Count(adj[u], v) <= p.degree[v] && Remaining(deps[v], p.done) == p.degree[v] - Count(adj[u], v)
    {
      RemainingAfter(deps[v], k.done, u);
    }
    RelaxTidy(p, adj[u]);
    RemainingZero(deps[u], k.done);
    forall j, c | 0 <= j < |p.done| && c in Out(deps, p.done[j])
      ensures c in p.done[..j]
    {
      if j < |k.done| {
        assert p.done[j] == k.done[j] && p.done[..j] == k.done[..j];
      } else {
        assert p.done[..j] == k.done;
      }
    }
  }

  /** With nothing left on the stack: everything was done exactly when there is no cycle. */
  lemma Exhausted(deps: Adj<int>, k: Kahn)
    requires Closed(deps) && Inv(deps, k) && k.stack == []
    ensures |k.done| == |deps| <==> Acyclic(deps)
  {
    hide Steps;
    var done := set v | v in k.done;
    assert k.Seen() == k.done;
    forall v | v in done
      ensures v in deps.Keys
    {
      assert v in k.Seen();
    }
    SetOfSeq(k.done);
    assert |deps| == |deps.Keys|;
    if Acyclic(deps) {
      if deps.Keys - done != {} {
        var m := SinkExists(deps, deps.Keys - done);
        RemainingZero(deps[m], k.done);
        assert m !in k.done && Remaining(deps[m], k.done) == 0;
        assert false;
      }
      assert forall v :: v in deps.Keys ==> v !in deps.Keys - done;
      assert done == deps.Keys;
    }
    if |k.done| == |deps| {
      SameSize(done, deps.Keys);
      OrderedIsAcyclic(deps, k.done);
    }
  }

  lemma SameSize(a: set<int>, b: set<int>)
    requires a <= b && |a| == |b|
    ensures a == b
  {
    assert b == a + (b - a);
  }

  lemma {:induction false} SetOfSeq(s: seq<int>)
    requires NoDuplicates(s)
    ensures |set v | v in s| == |s|
  {
    if s != [] {
      var init, last := s[..|s| - 1], s[|s| - 1];
      SetOfSeq(init);
      assert s == init + [last] && last !in init;
      assert (set v | v in s) == (set v | v in init) + {last};
    }
  }

  /** A walk along dependencies goes to earlier positions. */
  lemma {:induction false} WalkGoesBack(deps: Adj<int>, order: seq<int>, j: nat, b: int, n: nat) returns (i: nat)
    requires DepsFirst(deps, order) && j < |order| && Steps(deps, order[j], b, n)
    ensures i <= j && order[i] == b && (n > 0 ==> i < j)
    decreases n
  {
    hide Steps;
    if n == 0 {
      NowhereElse(deps, order[j], b);
      return j;
    }
    var c := FirstStep(deps, order[j], b, n);
    var m :| 0 <= m < j && order[m] == c;
    i := WalkGoesBack(deps, order, m, b, n - 1);
  }

  lemma OrderedIsAcyclic(deps: Adj<int>, order: seq<int>)
    requires DepsFirst(deps, order) && NoDuplicates(order) && deps.Keys == set v | v in order
    ensures Acyclic(deps)
  {
    forall e: int, n: nat | n > 0
      ensures !Steps(deps, e, e, n)
    {
      if Steps(deps, e, e, n) {
        var c := FirstStep(deps, e, e, n);
        assert e in deps.Keys;
        var j :| 0 <= j < |order| && order[j] == e;
        var i := WalkGoesBack(deps, order, j, e, n);
      }
    }
  }

  // ----- The loops

  method BuildReverse(deps: Adj<int>) returns (adj: Adj<int>)
    requires Closed(deps)
    ensures Reverses(adj, deps)
  {
    hide Count;
    adj := map v | v in deps :: [];
    var todo := deps.Keys;
    NoCounts();
    while todo != {}
      invariant todo <= deps.Keys && Partial(adj, deps, todo)
      decreases todo
    {
      var v := Pick(todo);
      adj := AddEdges(adj, deps, todo, v);
      todo := todo - {v};
    }
  }

  lemma NoCounts()
    ensures forall v: int :: Count([], v) == 0
  {
  }

  /** The tasks outside `todo` have been entered. */
  ghost predicate Partial(adj: Adj<int>, deps: Adj<int>, todo: set<int>) {
    && adj.Keys == deps.Keys
    && (forall u, v :: u in adj && v in adj[u] ==> v in deps)
    && (forall u, v :: u in adj && v in deps ==> Count(adj[u], v) == if v in todo then 0 else Count(deps[v], u))
  }

  lemma CountSnoc(s: seq<int>, x: int)
    ensures forall v :: Count(s + [x], v) == Count(s, v) + if v == x then 1 else 0
  {
    assert (s + [x])[..|s|] == s;
  }

  method AddEdges(adj: Adj<int>, deps: Adj<int>, todo: set<int>, v: int) returns (r: Adj<int>)
    requires Closed(deps) && todo <= deps.Keys && v in todo && Partial(adj, deps, todo)
    ensures Partial(r, deps, todo - {v})
  {
    hide Count;
    r := adj;
    var ds := deps[v];
    NoCounts();
    for i := 0 to |ds|
      invariant r.Keys == deps.Keys && Entered(adj, r, deps, v, ds[..i])
    {
      AddEdge(adj, r, deps, v, ds[..i], ds[i]);
      assert ds[..i + 1] == ds[..i] + [ds[i]];
      r := r[ds[i] := r[ds[i]] + [v]];
    }
    assert ds[..|ds|] == ds;
  }

  /** `r` is `adj` with `v` entered under each of `ds`. */
  ghost predicate Entered(adj: Adj<int>, r: Adj<int>, deps: Adj<int>, v: int, ds: seq<int>)
    requires adj.Keys == r.Keys == deps.Keys
  {
    && (forall u, w :: u in r && w in r[u] ==> w in deps)
    && (forall u :: u in r ==> Count(r[u], v) == Count(ds, u))
    && (forall u, w :: u in r && w in deps && w != v ==> Count(r[u], w) == Count(adj[u], w))
  }

  lemma AddEdge(adj: Adj<int>, r: Adj<int>, deps: Adj<int>, v: int, ds: seq<int>, d: int)
    requires adj.Keys == r.Keys == deps.Keys && v in deps && d in deps && Entered(adj, r, deps, v, ds)
    ensures Entered(adj, r[d := r[d] + [v]], deps, v, ds + [d])
  {
    hide Count;
    CountSnoc(r[d], v);
    CountSnoc(ds, d);
  }

  /** The tasks without dependencies, in some order. */
  method Roots(deps: Adj<int>) returns (stack: seq<int>)
    ensures NoDuplicates(stack) && forall v :: v in stack <==> v in deps && deps[v] == []
  {
    stack := [];
    var todo := deps.Keys;
    while todo != {}
      invariant todo <= deps.Keys && NoDuplicates(stack)
      invariant forall v :: v in stack <==> v in deps && v !in todo && deps[v] == []
      decreases todo
    {
      var v := Pick(todo);
      todo := todo - {v};
      if |deps[v]| == 0 {
        stack := stack + [v];
      }
    }
  }

  lemma StartInv(deps: Adj<int>, k: Kahn)
    requires k.done == [] && k.degree == map v | v in deps :: |deps[v]|
    requires NoDuplicates(k.stack) && forall v :: v in k.stack <==> v in deps && deps[v] == []
    ensures Inv(deps, k)
  {
    assert k.Seen() == k.stack;
    forall v | v in deps
      ensures k.degree[v] == Remaining(deps[v], [])
    {
      RemainingAll(deps[v]);
    }
  }

  lemma DoneFits(deps: Adj<int>, k: Kahn)
    requires Inv(deps, k)
    ensures |k.Seen()| <= |deps|
  {
    SetOfSeq(k.Seen());
    var seen := set v | v in k.Seen();
    forall v | v in seen
      ensures v in deps.Keys
    {
      assert v in k.Seen();
    }
    assert deps.Keys == seen + (deps.Keys - seen);
    assert |deps| == |deps.Keys|;
  }

  /** Takes every neighbour's count down by one, in order. */
  method RelaxAll(k: Kahn, vs: seq<int>) returns (t: Kahn)
    ensures t == Relax(k, vs)
  {
    hide RelaxOne;
    t := k;
    for j := 0 to |vs|
      invariant t == Relax(k, vs[..j])
    {
      assert vs[..j + 1][..j] == vs[..j];
      t := RelaxOne(t, vs[j]);
    }
    assert vs[..|vs|] == vs;
  }

  /** The detector answers exactly whether there is a cycle. */
  method HasCycle(deps: Adj<int>) returns (r: bool)
    requires Closed(deps)
    ensures r <==> !Acyclic(deps)
  {
    hide Inv, Closed, Reverses, Acyclic;
    var adj := BuildReverse(deps);
    var stack := Roots(deps);
    var k := Kahn(map v | v in deps :: |deps[v]|, stack, []);
    StartInv(deps, k);
    var visited := 0;
    while k.stack != []
      invariant Inv(deps, k) && visited == |k.done|
      decreases |deps| - |k.done|
    {
      StepInv(deps, adj, k);
      DoneFits(deps, k);
      var u := k.stack[|k.stack| - 1];
      k := RelaxAll(Pop(k), adj[u]);
      visited := visited + 1;
    }
    Exhausted(deps, k);
    r := visited != |deps|;
  }
}
