/** Finite directed graphs given by adjacency lists: walks, balls, acyclicity. */
module Digraph {

  type Adj<T> = map<T, seq<T>>

  /** The adjacency list of `e`; a missing row is an empty list. */
  function Out<T(==)>(g: Adj<T>, e: T): seq<T> {
    if e in g then g[e] else []
  }

  /** There is a walk of exactly `n` edges from `a` to `b`. */
  ghost predicate Steps<T>(g: Adj<T>, a: T, b: T, n: nat)
    decreases n
  {
    if n == 0 then a == b else exists m :: m in Out(g, a) && Steps(g, m, b, n - 1)
  }

  ghost predicate Reaches<T>(g: Adj<T>, a: T, b: T) {
    exists n: nat :: Steps(g, a, b, n)
  }

  ghost predicate Acyclic<T(!new)>(g: Adj<T>) {
    forall e: T, n: nat :: n > 0 ==> !Steps(g, e, e, n)
  }

  /** Every node that owns a row or is listed in one. */
  function Nodes<T(==)>(g: Adj<T>): set<T> {
    g.Keys + set k, x | k in g && x in g[k] :: x
  }

  /** The nodes at most `n` edges away from `root`. */
  ghost function Ball<T>(g: Adj<T>, root: T, n: nat): set<T> {
    if n == 0 then {root}
    else Ball(g, root, n - 1) + set p, x | p in Ball(g, root, n - 1) && x in Out(g, p) :: x
  }

  /** `n` is the length of a shortest walk from `root` to `e`. */
  ghost predicate Shortest<T>(g: Adj<T>, root: T, e: T, n: nat) {
    e in Ball(g, root, n) && (n > 0 ==> e !in Ball(g, root, n - 1))
  }

  /** `r` is `g` with every edge turned around. */
  ghost predicate Converse<T(!new)>(g: Adj<T>, r: Adj<T>) {
    forall a: T, b: T :: b in Out(r, a) <==> a in Out(g, b)
  }

  ghost predicate NoDuplicates<T>(s: seq<T>) {
    forall i, j :: 0 <= i < j < |s| ==> s[i] != s[j]
  }

  ghost function Count<T>(s: seq<T>, v: T): nat {
    if s == [] then 0 else Count(s[..|s| - 1], v) + if s[|s| - 1] == v then 1 else 0
  }

  lemma NoSteps<T>(g: Adj<T>, a: T)
    ensures Steps(g, a, a, 0)
  {
  }

  lemma ReachesSelf<T>(g: Adj<T>, a: T)
    ensures Reaches(g, a, a)
  {
    assert Steps(g, a, a, 0);
  }

  /** Extending a walk at its start. */
  lemma StepsCons<T>(g: Adj<T>, a: T, m: T, b: T, n: nat)
    requires m in Out(g, a) && Steps(g, m, b, n)
    ensures Steps(g, a, b, n + 1)
  {
  }

  lemma ZeroSteps<T>(g: Adj<T>, a: T, b: T)
    ensures Steps(g, a, b, 0) <==> a == b
  {
  }

  lemma FirstStep<T>(g: Adj<T>, a: T, b: T, n: nat) returns (m: T)
    requires n > 0 && Steps(g, a, b, n)
    ensures m in Out(g, a) && Steps(g, m, b, n - 1)
  {
    m :| m in Out(g, a) && Steps(g, m, b, n - 1);
  }

  lemma {:induction false} StepsConcat<T>(g: Adj<T>, a: T, b: T, c: T, m: nat, n: nat)
    requires Steps(g, a, b, m) && Steps(g, b, c, n)
    ensures Steps(g, a, c, m + n)
    decreases m
  {
    if m > 0 {
      var x :| x in Out(g, a) && Steps(g, x, b, m - 1);
      StepsConcat(g, x, b, c, m - 1, n);
    }
  }

  /** Extending a walk at its end. */
  lemma StepsSnoc<T>(g: Adj<T>, a: T, b: T, c: T, n: nat)
    requires Steps(g, a, b, n) && c in Out(g, b)
    ensures Steps(g, a, c, n + 1)
  {
    assert Steps(g, c, c, 0);
    assert Steps(g, b, c, 1);
    StepsConcat(g, a, b, c, n, 1);
  }

  lemma ReachesNext<T>(g: Adj<T>, a: T, b: T, c: T)
    requires Reaches(g, a, b) && c in Out(g, b)
    ensures Reaches(g, a, c)
  {
    var n: nat :| Steps(g, a, b, n);
    StepsSnoc(g, a, b, c, n);
  }

  /** Cutting a walk before its last edge. */
  lemma {:induction false} StepsUnsnoc<T>(g: Adj<T>, a: T, c: T, n: nat) returns (b: T)
    requires n > 0 && Steps(g, a, c, n)
    ensures Steps(g, a, b, n - 1) && c in Out(g, b)
    decreases n
  {
    var x :| x in Out(g, a) && Steps(g, x, c, n - 1);
    if n == 1 {
      b := a;
    } else {
      b := StepsUnsnoc(g, x, c, n - 1);
      assert Steps(g, a, b, n - 1);
    }
  }

  lemma {:induction false} BallGrows<T>(g: Adj<T>, root: T, m: nat, n: nat)
    requires m <= n
    ensures Ball(g, root, m) <= Ball(g, root, n)
    decreases n
  {
    if m < n {
      BallGrows(g, root, m, n - 1);
    }
  }

  lemma {:induction false} WalkEndsInBall<T>(g: Adj<T>, root: T, e: T, m: nat, n: nat)
    requires m <= n && Steps(g, root, e, m)
    ensures e in Ball(g, root, n)
    decreases m
  {
    hide Steps;
    if m == 0 {
      NowhereElse(g, root, e);
    } else {
      var b := StepsUnsnoc(g, root, e, m);
      WalkEndsInBall(g, root, b, m - 1, m - 1);
    }
    BallGrows(g, root, m, n);
  }

  lemma NowhereElse<T>(g: Adj<T>, a: T, b: T)
    requires Steps(g, a, b, 0)
    ensures a == b
  {
  }

  lemma {:induction false} BallHasWalk<T>(g: Adj<T>, root: T, e: T, n: nat) returns (m: nat)
    requires e in Ball(g, root, n)
    ensures m <= n && Steps(g, root, e, m)
    decreases n
  {
    hide Steps;
    if n == 0 {
      NoSteps(g, root);
      m := 0;
    } else if e in Ball(g, root, n - 1) {
      m := BallHasWalk(g, root, e, n - 1);
    } else {
      var p :| p in Ball(g, root, n - 1) && e in Out(g, p);
      m := BallHasWalk(g, root, p, n - 1);
      StepsSnoc(g, root, p, e, m);
      m := m + 1;
    }
  }

  /** Turning every edge around turns every walk around. */
  lemma {:induction false} ConverseSteps<T(!new)>(g: Adj<T>, r: Adj<T>, a: T, b: T, n: nat)
    requires Converse(g, r)
    ensures Steps(g, b, a, n) <==> Steps(r, a, b, n)
    decreases n
  {
    hide Steps;
    if n == 0 {
      ZeroSteps(g, b, a);
      ZeroSteps(r, a, b);
    } else {
      if Steps(g, b, a, n) {
        var p := StepsUnsnoc(g, b, a, n);
        ConverseSteps(g, r, p, b, n - 1);
        StepsCons(r, a, p, b, n - 1);
      }
      if Steps(r, a, b, n) {
        var p := FirstStep(r, a, b, n);
        ConverseSteps(g, r, p, b, n - 1);
        StepsSnoc(g, b, p, a, n - 1);
      }
    }
  }

  /** A set closed under edges keeps every walk that starts in it. */
  lemma {:induction false} ClosedKeepsWalks<T>(g: Adj<T>, s: set<T>, a: T, b: T, n: nat)
    requires forall x, y :: x in s && y in Out(g, x) ==> y in s
    requires a in s && Steps(g, a, b, n)
    ensures b in s
    decreases n
  {
    if n > 0 {
      var x :| x in Out(g, a) && Steps(g, x, b, n - 1);
      ClosedKeepsWalks(g, s, x, b, n - 1);
    }
  }

  lemma ClosedKeepsReach<T>(g: Adj<T>, s: set<T>, a: T, b: T)
    requires forall x, y :: x in s && y in Out(g, x) ==> y in s
    requires a in s && b !in s
    ensures !Reaches(g, a, b)
  {
    if n: nat :| Steps(g, a, b, n) {
      ClosedKeepsWalks(g, s, a, b, n);
    }
  }

  /** Replacing the row of `v`: a walk that ends in `v` needs the new row only after it first met `v`. */
  lemma {:induction false} WalkIntoReplaced<T>(g: Adj<T>, v: T, row: seq<T>, a: T, n: nat)
    requires Steps(g[v := row], a, v, n)
    ensures Reaches(g, a, v)
    decreases n
  {
    if a == v {
      assert Steps(g, a, v, 0);
    } else {
      var x :| x in Out(g[v := row], a) && Steps(g[v := row], x, v, n - 1);
      WalkIntoReplaced(g, v, row, x, n - 1);
      var k: nat :| Steps(g, x, v, k);
      assert x in Out(g, a);
      assert Steps(g, a, v, k + 1);
    }
  }

  /** Replacing the row of `v`: a walk is an old walk or goes through `v`. */
  lemma {:induction false} WalkThroughReplaced<T>(g: Adj<T>, v: T, row: seq<T>, a: T, b: T, n: nat) returns (k: nat)
    requires Steps(g[v := row], a, b, n) && !Steps(g, a, b, n)
    ensures k <= n && Steps(g[v := row], a, v, k) && Steps(g[v := row], v, b, n - k)
    decreases n
  {
    if a == v {
      k := 0;
    } else {
      var x :| x in Out(g[v := row], a) && Steps(g[v := row], x, b, n - 1);
      assert x in Out(g, a);
      k := WalkThroughReplaced(g, v, row, x, b, n - 1);
      k := k + 1;
    }
  }

  /** The cycle check is sound: rows may be replaced by nodes that do not reach the row's owner. */
  lemma ReplaceKeepsAcyclic<T(!new)>(g: Adj<T>, v: T, row: seq<T>)
    requires Acyclic(g)
    requires forall c :: c in row ==> !Reaches(g, c, v)
    ensures Acyclic(g[v := row])
  {
    var h := g[v := row];
    forall e, n: nat | n > 0 && Steps(h, e, e, n)
      ensures false
    {
      assert !Steps(g, e, e, n);
      var k := WalkThroughReplaced(g, v, row, e, e, n);
      StepsConcat(h, v, e, v, n - k, k);
      var c :| c in Out(h, v) && Steps(h, c, v, n - 1);
      WalkIntoReplaced(g, v, row, c, n - 1);
    }
  }

  /** The cycle check is complete: a row that reaches its owner closes a cycle. */
  lemma ReplaceMakesCycle<T(!new)>(g: Adj<T>, v: T, row: seq<T>, c: T)
    requires Acyclic(g) && c in row && Reaches(g, c, v)
    ensures !Acyclic(g[v := row])
  {
    var h := g[v := row];
    var n: nat :| Steps(g, c, v, n);
    var k := FirstMeeting(g, v, row, c, n);
    assert c in Out(h, v) && Steps(h, c, v, k);
    assert Steps(h, v, v, k + 1);
  }

  lemma {:induction false} FirstMeeting<T>(g: Adj<T>, v: T, row: seq<T>, a: T, n: nat) returns (k: nat)
    requires Steps(g, a, v, n)
    ensures Steps(g[v := row], a, v, k)
    decreases n
  {
    if a == v {
      k := 0;
    } else {
      var x :| x in Out(g, a) && Steps(g, x, v, n - 1);
      k := FirstMeeting(g, v, row, x, n - 1);
      assert x in Out(g[v := row], a);
      k := k + 1;
    }
  }

  /** In a finite acyclic graph every non-empty set of nodes has one without edges into the set. */
  lemma {:induction false} SinkExists<T(!new)>(g: Adj<T>, s: set<T>) returns (m: T)
    requires Acyclic(g) && s != {}
    ensures m in s && forall y :: y in Out(g, m) ==> y !in s
    decreases s
  {
    var x :| x in s;
    var below := set y | y in s && exists n: nat :: n > 0 && Steps(g, x, y, n);
    if below == {} {
      m := x;
      forall y | y in Out(g, x)
        ensures y !in s
      {
        assert Steps(g, y, y, 0);
        assert Steps(g, x, y, 1);
        assert y in s ==> y in below;
      }
    } else {
      assert x !in below;
      assert below < s;
      m := SinkExists(g, below);
      var n: nat :| n > 0 && Steps(g, x, m, n);
      forall y | y in Out(g, m)
        ensures y !in s
      {
        StepsSnoc(g, x, m, y, n);
        assert y !in below;
        assert y in s ==> y in below;
      }
    }
  }

  /** In a finite acyclic graph every non-empty set of nodes has one without edges from the set. */
  lemma {:induction false} SourceExists<T(!new)>(g: Adj<T>, s: set<T>) returns (m: T)
    requires Acyclic(g) && s != {}
    ensures m in s && forall y :: y in s ==> m !in Out(g, y)
    decreases s
  {
    hide Steps;
    var x :| x in s;
    var above := set y | y in s && exists n: nat :: n > 0 && Steps(g, y, x, n);
    if above == {} {
      m := x;
      forall y | y in s
        ensures x !in Out(g, y)
      {
        assert x in Out(g, y) ==> y in above by {
          if x in Out(g, y) {
            OneStep(g, y, x);
          }
        }
      }
    } else {
      assert x !in above;
      assert above < s;
      m := SourceExists(g, above);
      var n: nat :| n > 0 && Steps(g, m, x, n);
      forall y | y in s
        ensures m !in Out(g, y)
      {
        if m in Out(g, y) {
          OneStep(g, y, m);
          StepsConcat(g, y, m, x, 1, n);
        }
      }
    }
  }

  lemma OneStep<T>(g: Adj<T>, a: T, b: T)
    requires b in Out(g, a)
    ensures Steps(g, a, b, 1)
  {
    assert Steps(g, b, b, 0);
  }
}
