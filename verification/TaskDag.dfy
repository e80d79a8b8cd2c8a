/** The background task graph: admission, lifecycle and the choice of ready tasks. */
module TaskDag {
  import opened Core
  import opened Digraph
  import TaskGraph

  datatype Status = Pending | Running | Completed | Failed

  /** `rank` is the task class, from 0 (maintenance) to 4 (seal). */
  datatype Task = Task(rank: int, status: Status, deps: seq<int>)

  datatype RuntimeError = TaskNotFound(id: int) | DependencyCycleDetected | TaskPrerequisitesNotMet(id: int)

  datatype Dag = Dag(tasks: map<int, Task>, nextId: int) {
    function Deps(): Adj<int> {
      map id | id in tasks :: tasks[id].deps
    }

    predicate Done(id: int) {
      id in tasks && tasks[id].status == Completed
    }

    predicate DepsDone(id: int)
      requires id in tasks
    {
      forall c :: c in tasks[id].deps ==> Done(c)
    }

    predicate Ready(id: int) {
      id in tasks && tasks[id].status == Pending && DepsDone(id)
    }

    function Added(rank: int, deps: seq<int>): Dag {
      Dag(tasks[nextId := Task(rank, Pending, deps)], nextId + 1)
    }

    function With(id: int, s: Status): Dag
      requires id in tasks
    {
      this.(tasks := tasks[id := tasks[id].(status := s)])
    }
  }

  // ----- The operations as steps

  datatype Action = Add(rank: int, deps: seq<int>) | Start(id: int) | Complete(id: int) | Fail(id: int)

  /** The first dependency nobody knows. */
  function FirstMissing(d: Dag, deps: seq<int>): Option<int> {
    if deps == [] then None else if deps[0] !in d.tasks then Some(deps[0]) else FirstMissing(d, deps[1..])
  }

  /** What each operation leaves behind; a refused one leaves everything as it was. */
  function Step(d: Dag, a: Action): Dag {
    match a
    case Add(rank, deps) =>
      if FirstMissing(d, deps).Some? then d
      else d.Added(rank, deps)
    case Start(id) => if id in d.tasks && d.DepsDone(id) then d.With(id, Running) else d
    case Complete(id) => if id in d.tasks then d.With(id, Completed) else d
    case Fail(id) => if id in d.tasks then d.With(id, Failed) else d
  }

  function Run(d: Dag, actions: seq<Action>): Dag {
    if actions == [] then d else Step(Run(d, actions[..|actions| - 1]), actions[|actions| - 1])
  }

  const Empty := Dag(map[], 0)

  // ----- Every run

  ghost predicate IdsBelow(tasks: map<int, Task>, n: int) {
    forall id :: id in tasks ==> 0 <= id < n
  }

  ghost predicate OlderThan(tasks: map<int, Task>, deps: seq<int>, id: int) {
    forall c :: c in deps ==> c in tasks && c < id
  }

  ghost predicate DepsOlder(tasks: map<int, Task>) {
    forall id :: id in tasks ==> OlderThan(tasks, tasks[id].deps, id)
  }

  /** Dependencies are older tasks. */
  ghost predicate Grown(d: Dag) {
    d.nextId >= 0 && IdsBelow(d.tasks, d.nextId) && DepsOlder(d.tasks)
  }

  lemma {:induction false} NoneMissing(d: Dag, deps: seq<int>)
    ensures FirstMissing(d, deps).None? <==> forall c :: c in deps ==> c in d.tasks
  {
    if deps != [] {
      NoneMissing(d, deps[1..]);
      assert forall c :: c in deps <==> c == deps[0] || c in deps[1..];
    }
  }

  lemma AddGrown(d: Dag, rank: int, deps: seq<int>)
    requires Grown(d) && FirstMissing(d, deps).None?
    ensures Grown(d.Added(rank, deps))
  {
    hide FirstMissing;
    var t := d.Added(rank, deps).tasks;
    NoneMissing(d, deps);
    assert t.Keys == d.tasks.Keys + {d.nextId};
    assert IdsBelow(t, d.nextId + 1);
    forall id | id in t
      ensures OlderThan(t, t[id].deps, id)
    {
      if id == d.nextId {
        assert OlderThan(t, deps, id);
      } else {
        assert OlderThan(d.tasks, d.tasks[id].deps, id);
      }
    }
  }

  lemma WithGrown(d: Dag, id: int, s: Status)
    requires Grown(d) && id in d.tasks
    ensures Grown(d.With(id, s))
  {
    var t := d.With(id, s).tasks;
    assert t.Keys == d.tasks.Keys;
    assert IdsBelow(t, d.nextId);
    forall i | i in t
      ensures OlderThan(t, t[i].deps, i)
    {
      assert OlderThan(d.tasks, d.tasks[i].deps, i);
    }
  }

  lemma StepGrown(d: Dag, a: Action)
    requires Grown(d)
    ensures Grown(Step(d, a))
  {
    hide Grown, Dag.With, Dag.Added, FirstMissing;
    match a
    case Add(rank, deps) =>
      if FirstMissing(d, deps).None? {
        AddGrown(d, rank, deps);
      }
    case Start(id) =>
      if id in d.tasks {
        WithGrown(d, id, Running);
      }
    case Complete(id) =>
      if id in d.tasks {
        WithGrown(d, id, Completed);
      }
    case Fail(id) =>
      if id in d.tasks {
        WithGrown(d, id, Failed);
      }
  }

  lemma {:induction false} WalkGoesDown(d: Dag, a: int, b: int, n: nat)
    requires Grown(d) && Steps(d.Deps(), a, b, n)
    ensures b <= a && (n > 0 ==> b < a && a in d.tasks && b in d.tasks)
    decreases n
  {
    if n > 0 {
      var c := FirstStep(d.Deps(), a, b, n);
      WalkGoesDown(d, c, b, n - 1);
    }
  }

  lemma GrownAcyclic(d: Dag)
    requires Grown(d)
    ensures Acyclic(d.Deps()) && TaskGraph.Closed(d.Deps())
  {
    forall e: int, n: nat | n > 0
      ensures !Steps(d.Deps(), e, e, n)
    {
      if Steps(d.Deps(), e, e, n) {
        WalkGoesDown(d, e, e, n);
      }
    }
  }

  /** Whatever is done to it, the graph has no cycle. */
  lemma {:induction false} RunAcyclic(actions: seq<Action>)
    ensures Grown(Run(Empty, actions)) && Acyclic(Run(Empty, actions).Deps())
  {
    hide Acyclic;
    if actions != [] {
      RunAcyclic(actions[..|actions| - 1]);
      StepGrown(Run(Empty, actions[..|actions| - 1]), actions[|actions| - 1]);
    }
    GrownAcyclic(Run(Empty, actions));
  }

  // ----- Disciplined runs

  /** Only ready tasks are started, and only running tasks end. */
  predicate Allowed(d: Dag, a: Action) {
    match a
    case Add(_, _) => true
    case Start(id) => d.Ready(id)
    case Complete(id) => id in d.tasks && d.tasks[id].status == Running
    case Fail(id) => id in d.tasks && d.tasks[id].status == Running
  }

  predicate Disciplined(actions: seq<Action>) {
    actions == [] ||
    (Disciplined(actions[..|actions| - 1]) && Allowed(Run(Empty, actions[..|actions| - 1]), actions[|actions| - 1]))
  }

  /** What has been started had its dependencies completed, and still has. */
  ghost predicate Honest(d: Dag) {
    forall id :: id in d.tasks && (d.tasks[id].status == Running || d.tasks[id].status == Completed) ==> d.DepsDone(id)
  }

  lemma StepHonest(d: Dag, a: Action)
    requires Grown(d) && Honest(d) && Allowed(d, a)
    ensures Honest(Step(d, a))
  {
    if a.Add? {
      NoneMissing(d, a.deps);
    }
  }

  lemma {:induction false} RunHonest(actions: seq<Action>)
    requires Disciplined(actions)
    ensures Honest(Run(Empty, actions))
  {
    hide Honest, Allowed, Acyclic;
    if actions == [] {
      assert Honest(Empty) by {
        EmptyHonest();
      }
    } else {
      var init := actions[..|actions| - 1];
      RunHonest(init);
      RunAcyclic(init);
      StepHonest(Run(Empty, init), actions[|actions| - 1]);
    }
  }

  lemma EmptyHonest()
    ensures Honest(Empty)
  {
  }

  /** Where the promise holds, everything a running or completed task depends on, at any distance, is completed. */
  lemma {:induction false} TransitivelyDone(actions: seq<Action>, id: int, c: int, n: nat)
    requires Honest(Run(Empty, actions))
    requires var d := Run(Empty, actions);
             && id in d.tasks && (d.tasks[id].status == Running || d.tasks[id].status == Completed)
             && n > 0 && Steps(d.Deps(), id, c, n)
    ensures Run(Empty, actions).Done(c)
    decreases n
  {
    var d := Run(Empty, actions);
    var m := FirstStep(d.Deps(), id, c, n);
    assert d.Done(m);
    if n > 1 {
      TransitivelyDone(actions, m, c, n - 1);
    }
  }

  /** With work left and nothing running or failed, something is ready. */
  lemma Progress(actions: seq<Action>, left: int) returns (id: int)
    requires var d := Run(Empty, actions);
             && left in d.tasks && d.tasks[left].status == Pending
             && (forall p :: p in d.tasks ==> d.tasks[p].status != Running && d.tasks[p].status != Failed)
    ensures Run(Empty, actions).Ready(id)
  {
    hide Steps, Run;
    RunAcyclic(actions);
    var d := Run(Empty, actions);
    var pending := set p | p in d.tasks && d.tasks[p].status == Pending;
    assert left in pending;
    id := SinkExists(d.Deps(), pending);
    assert id in pending && Out(d.Deps(), id) == d.tasks[id].deps;
    forall c | c in d.tasks[id].deps
      ensures d.Done(c)
    {
      assert c !in pending && c in d.tasks;
    }
  }

  // ----- Exactly when the promise is kept

  predicate Started(t: Task) {
    t.status == Running || t.status == Completed
  }

  /** Some running or completed task names `id` as a dependency. */
  ghost predicate Needed(d: Dag, id: int) {
    exists b :: b in d.tasks && Started(d.tasks[b]) && id in d.tasks[b].deps
  }

  /** The step takes no completed task away from a task that relies on it, and completes none before its time. */
  ghost predicate Keeps(d: Dag, a: Action) {
    match a
    case Add(_, _) => true
    case Start(id) => id in d.tasks && d.DepsDone(id) && d.tasks[id].status == Completed ==> !Needed(d, id)
    case Complete(id) => id in d.tasks ==> d.DepsDone(id)
    case Fail(id) => id in d.tasks && d.tasks[id].status == Completed ==> !Needed(d, id)
  }

  lemma OthersUnchanged(d: Dag, id: int, s: Status, b: int)
    requires id in d.tasks && b in d.tasks && id !in d.tasks[b].deps && d.DepsDone(b)
    ensures d.With(id, s).DepsDone(b)
  {
  }

  /** Changing a status to something else than completed keeps the promise exactly when a completed task is not
      needed. */
  lemma TakingAway(d: Dag, id: int, s: Status)
    requires Grown(d) && Honest(d) && id in d.tasks && s != Completed && (s == Running ==> d.DepsDone(id))
    ensures Honest(d.With(id, s)) <==> (d.tasks[id].status == Completed ==> !Needed(d, id))
  {
    var t := d.With(id, s);
    assert OlderThan(d.tasks, d.tasks[id].deps, id);
    if Needed(d, id) {
      var b :| b in d.tasks && Started(d.tasks[b]) && id in d.tasks[b].deps;
      assert OlderThan(d.tasks, d.tasks[b].deps, b);
      assert d.DepsDone(b) && d.Done(id) && !t.Done(id);
      assert t.tasks[b] == d.tasks[b] && id in t.tasks[b].deps;
      assert !t.DepsDone(b);
    } else {
      forall b | b in t.tasks && Started(t.tasks[b])
        ensures t.DepsDone(b)
      {
        if b == id {
          OthersUnchanged(d, id, s, id);
        } else {
          OthersUnchanged(d, id, s, b);
        }
      }
    }
  }

  lemma CompletingKeeps(d: Dag, id: int)
    requires Grown(d) && Honest(d) && id in d.tasks
    ensures Honest(d.With(id, Completed)) <==> d.DepsDone(id)
  {
    var t := d.With(id, Completed);
    assert OlderThan(d.tasks, d.tasks[id].deps, id);
    assert forall c :: d.Done(c) ==> t.Done(c);
    assert t.tasks[id].deps == d.tasks[id].deps;
    assert t.DepsDone(id) <==> d.DepsDone(id);
  }

  /** A step keeps the promise exactly when it satisfies `Keeps`, which a caller can look up beforehand. */
  lemma HonestExactly(d: Dag, a: Action)
    requires Grown(d) && Honest(d)
    ensures Honest(Step(d, a)) <==> Keeps(d, a)
  {
    hide Grown, Honest, Needed, Dag.DepsDone;
    match a
    case Add(_, _) => StepHonest(d, a);
    case Start(id) =>
      if id in d.tasks && d.DepsDone(id) {
        TakingAway(d, id, Running);
      }
    case Complete(id) =>
      if id in d.tasks {
        CompletingKeeps(d, id);
      }
    case Fail(id) =>
      if id in d.tasks {
        TakingAway(d, id, Failed);
      }
  }

  /** The promise holds after every step of the run. */
  ghost predicate AlwaysHonest(actions: seq<Action>) {
    Honest(Run(Empty, actions)) && (actions == [] || AlwaysHonest(actions[..|actions| - 1]))
  }

  ghost predicate AlwaysKeeps(actions: seq<Action>) {
    actions == [] ||
    (AlwaysKeeps(actions[..|actions| - 1]) && Keeps(Run(Empty, actions[..|actions| - 1]), actions[|actions| - 1]))
  }

  /** Over every run from the empty graph: the promise is never broken exactly when every step keeps it. */
  lemma {:induction false} RunHonestExactly(actions: seq<Action>)
    ensures AlwaysHonest(actions) <==> AlwaysKeeps(actions)
  {
    hide Honest, Keeps, Acyclic, Grown;
    if actions == [] {
      EmptyHonest();
    } else {
      var init := actions[..|actions| - 1];
      RunHonestExactly(init);
      RunAcyclic(init);
      if AlwaysHonest(init) {
        HonestExactly(Run(Empty, init), actions[|actions| - 1]);
      }
    }
  }

  /** A run that breaks the promise: a task is completed before its dependency is even started. */
  lemma EarlyCompletionBreaks()
    ensures var d := Run(Empty, [Add(0, []), Add(0, [0]), Complete(1)]);
            0 in d.tasks && 1 in d.tasks && d.tasks[1] == Task(0, Completed, [0]) && d.tasks[0].status == Pending
            && !Honest(d)
  {
    TwoTasks();
    RunSnoc(Empty, [Add(0, []), Add(0, [0])], Complete(1));
    assert [Add(0, []), Add(0, [0])] + [Complete(1)] == [Add(0, []), Add(0, [0]), Complete(1)];
    var d := Run(Empty, [Add(0, []), Add(0, [0]), Complete(1)]);
    assert 0 in d.tasks[1].deps && !d.Done(0);
    assert !d.DepsDone(1);
  }

  /** The graph with a task and a second task that depends on it. */
  lemma TwoTasks()
    ensures Run(Empty, [Add(0, []), Add(0, [0])])
         == Dag(map[0 := Task(0, Pending, []), 1 := Task(0, Pending, [0])], 2)
  {
    var one := Empty.Added(0, []);
    RunSnoc(Empty, [], Add(0, []));
    assert [] + [Add(0, [])] == [Add(0, [])];
    NoneMissing(Empty, []);
    RunSnoc(Empty, [Add(0, [])], Add(0, [0]));
    assert [Add(0, [])] + [Add(0, [0])] == [Add(0, []), Add(0, [0])];
    NoneMissing(one, [0]);
    assert one.Added(0, [0]) == Dag(map[0 := Task(0, Pending, []), 1 := Task(0, Pending, [0])], 2);
  }

  lemma RunSnoc(d: Dag, actions: seq<Action>, a: Action)
    ensures Run(d, actions + [a]) == Step(Run(d, actions), a)
  {
    assert (actions + [a])[..|actions|] == actions;
  }

  /** Another: a completed task is started again under a running dependent. */
  lemma RestartBreaks()
    ensures var d := Run(Empty, [Add(0, []), Add(0, [0]), Start(0), Complete(0), Start(1), Start(0)]);
            1 in d.tasks && d.tasks[1] == Task(0, Running, [0]) && !d.Done(0) && !Honest(d)
  {
    var a := [Add(0, []), Add(0, [0])];
    var d2 := Dag(map[0 := Task(0, Pending, []), 1 := Task(0, Pending, [0])], 2);
    TwoTasks();
    RunSnoc(Empty, a, Start(0));
    var d3 := d2.With(0, Running);
    assert Step(d2, Start(0)) == d3;
    RunSnoc(Empty, a + [Start(0)], Complete(0));
    var d4 := d3.With(0, Completed);
    RunSnoc(Empty, a + [Start(0)] + [Complete(0)], Start(1));
    assert d4.DepsDone(1) && Step(d4, Start(1)) == d4.With(1, Running);
    var d5 := d4.With(1, Running);
    RunSnoc(Empty, a + [Start(0)] + [Complete(0)] + [Start(1)], Start(0));
    assert d5.DepsDone(0) && Step(d5, Start(0)) == d5.With(0, Running);
    var d6 := d5.With(0, Running);
    assert a + [Start(0)] + [Complete(0)] + [Start(1)] + [Start(0)]
        == [Add(0, []), Add(0, [0]), Start(0), Complete(0), Start(1), Start(0)];
    assert 0 in d6.tasks[1].deps && !d6.Done(0);
    assert !d6.DepsDone(1);
  }

  // ----- Choosing what to run

  /** Higher class first, then the older task. */
  predicate Before(d: Dag, x: int, y: int)
    requires x in d.tasks && y in d.tasks
  {
    d.tasks[x].rank > d.tasks[y].rank || (d.tasks[x].rank == d.tasks[y].rank && x < y)
  }

  ghost predicate AllTasks(d: Dag, s: seq<int>) {
    forall i :: 0 <= i < |s| ==> s[i] in d.tasks
  }

  ghost predicate InOrder(d: Dag, s: seq<int>)
    requires AllTasks(d, s)
  {
    forall i, j :: 0 <= i < j < |s| ==> Before(d, s[i], s[j])
  }

  function Place(d: Dag, s: seq<int>, x: int): (r: seq<int>)
    requires AllTasks(d, s) && InOrder(d, s) && x in d.tasks && x !in s
    ensures AllTasks(d, r) && InOrder(d, r) && forall y :: y in r <==> y in s || y == x
  {
    if s == [] then [x]
    else if Before(d, x, s[0]) then [x] + s
    else
      var rest := Place(d, s[1..], x);
      HeadFirst(d, s, x, rest);
      [s[0]] + rest
  }

  lemma HeadFirst(d: Dag, s: seq<int>, x: int, rest: seq<int>)
    requires AllTasks(d, s) && s != [] && InOrder(d, s) && x in d.tasks && x !in s && !Before(d, x, s[0])
    requires AllTasks(d, rest) && InOrder(d, rest) && forall y :: y in rest <==> y in s[1..] || y == x
    ensures AllTasks(d, [s[0]] + rest) && InOrder(d, [s[0]] + rest)
    ensures forall y :: y in [s[0]] + rest <==> y in s || y == x
  {
    assert s[0] in s && s == [s[0]] + s[1..];
    forall i | 0 <= i < |rest|
      ensures Before(d, s[0], rest[i])
    {
      var y := rest[i];
      assert y in rest;
      if y != x {
        assert y in s[1..];
        var j :| 0 <= j < |s[1..]| && s[1..][j] == y;
        assert Before(d, s[0], s[j + 1]);
      }
    }
  }

  class TaskDag {
    var tasks: map<int, Task>
    var nextId: int

    ghost function Value(): Dag
      reads this
    {
      Dag(tasks, nextId)
    }

    constructor ()
      ensures Value() == Empty
    {
      tasks, nextId := map[], 0;
    }

    /** The cycle check never refuses: dependencies can only name older tasks. */
    method AddTask(rank: int, deps: seq<int>) returns (r: Result<int, RuntimeError>)
      requires Grown(Value())
      modifies this
      ensures Value() == Step(old(Value()), Add(rank, deps)) && Grown(Value())
      ensures var missing := FirstMissing(old(Value()), deps);
              r == if missing.Some? then Err(TaskNotFound(missing.value)) else Ok(old(nextId))
      ensures r.Err? ==> tasks == old(tasks) && nextId == old(nextId)
      ensures r.Ok? ==> tasks == old(tasks)[r.value := Task(rank, Pending, deps)] && nextId == r.value + 1
    {
      hide Acyclic, TaskGraph.Closed;
      ghost var before := Value();
      var missing := Missing(deps);
      if missing.Some? {
        return Err(TaskNotFound(missing.value));
      }
      StepGrown(before, Add(rank, deps));
      var id := nextId;
      nextId := nextId + 1;
      tasks := tasks[id := Task(rank, Pending, deps)];
      GrownAcyclic(Value());
      var cyclic := TaskGraph.HasCycle(map i | i in tasks :: tasks[i].deps);
      tasks := if cyclic then tasks - {id} else tasks;
      r := if cyclic then Err(DependencyCycleDetected) else Ok(id);
    }

    method Missing(deps: seq<int>) returns (m: Option<int>)
      ensures m == FirstMissing(Value(), deps)
    {
      for i := 0 to |deps|
        invariant FirstMissing(Value(), deps) == FirstMissing(Value(), deps[i..])
      {
        assert deps[i..][1..] == deps[i + 1..];
        if deps[i] !in tasks {
          return Some(deps[i]);
        }
      }
      m := None;
    }

    method MarkRunning(id: int) returns (r: Option<RuntimeError>)
      requires Grown(Value())
      modifies this
      ensures Value() == Step(old(Value()), Start(id))
      ensures r == if id !in old(tasks) then Some(TaskNotFound(id))
                   else if forall c :: c in old(tasks)[id].deps ==>
                             c in old(tasks) && old(tasks)[c].status == Completed then None
                   else Some(TaskPrerequisitesNotMet(id))
      ensures nextId == old(nextId)
      ensures tasks == if r.Some? then old(tasks)
                       else old(tasks)[id := Task(old(tasks)[id].rank, Running, old(tasks)[id].deps)]
    {
      if id !in tasks {
        return Some(TaskNotFound(id));
      }
      var done := DepsComplete(id);
      if !done {
        return Some(TaskPrerequisitesNotMet(id));
      }
      tasks := tasks[id := tasks[id].(status := Running)];
      r := None;
    }

    method MarkCompleted(id: int) returns (r: Option<RuntimeError>)
      modifies this
      ensures Value() == Step(old(Value()), Complete(id))
      ensures r == if id in old(tasks) then None else Some(TaskNotFound(id))
      ensures nextId == old(nextId)
      ensures tasks == if r.Some? then old(tasks)
                       else old(tasks)[id := Task(old(tasks)[id].rank, Completed, old(tasks)[id].deps)]
    {
      if id !in tasks {
        return Some(TaskNotFound(id));
      }
      tasks := tasks[id := tasks[id].(status := Completed)];
      r := None;
    }

    method MarkFailed(id: int) returns (r: Option<RuntimeError>)
      modifies this
      ensures Value() == Step(old(Value()), Fail(id))
      ensures r == if id in old(tasks) then None else Some(TaskNotFound(id))
      ensures nextId == old(nextId)
      ensures tasks == if r.Some? then old(tasks)
                       else old(tasks)[id := Task(old(tasks)[id].rank, Failed, old(tasks)[id].deps)]
    {
      if id !in tasks {
        return Some(TaskNotFound(id));
      }
      tasks := tasks[id := tasks[id].(status := Failed)];
      r := None;
    }

    /** Exactly the ready tasks, by class and then by age. */
    method ReadyTasks() returns (r: seq<int>)
      requires Grown(Value())
      ensures forall id :: id in r <==> Value().Ready(id)
      ensures forall id :: id in r <==>
                && id in tasks && tasks[id].status == Pending
                && forall c :: c in tasks[id].deps ==> c in tasks && tasks[c].status == Completed
      ensures forall i :: 0 <= i < |r| ==> r[i] in tasks
      ensures forall i, j :: 0 <= i < j < |r| ==>
                tasks[r[i]].rank > tasks[r[j]].rank || (tasks[r[i]].rank == tasks[r[j]].rank && r[i] < r[j])
    {
      hide Grown;
      ghost var d := Value();
      r := [];
      var todo := tasks.Keys;
      while todo != {}
        invariant todo <= tasks.Keys && AllTasks(d, r) && InOrder(d, r)
        invariant forall id :: id in r <==> d.Ready(id) && id !in todo
        decreases todo
      {
        var id := Pick(todo);
        todo := todo - {id};
        var ready := IsReady(id);
        if ready {
          r := Place(Dag(tasks, nextId), r, id);
        }
      }
    }

    method IsReady(id: int) returns (r: bool)
      requires Grown(Value()) && id in tasks
      ensures r <==> Value().Ready(id)
    {
      if tasks[id].status != Pending {
        return false;
      }
      r := DepsComplete(id);
    }

    method DepsComplete(id: int) returns (r: bool)
      requires Grown(Value()) && id in tasks
      ensures r <==> Value().DepsDone(id)
    {
      var deps := tasks[id].deps;
      for i := 0 to |deps|
        invariant forall j :: 0 <= j < i ==> Value().Done(deps[j])
      {
        assert deps[i] in deps;
        if tasks[deps[i]].status != Completed {
          return false;
        }
      }
      r := true;
    }
  }
}
