/** Depth-bounded breadth-first traces, upstream and downstream. */
module CausalTrace {
  import opened Core
  import opened Digraph
  import opened CausalSpec

  /** Visited events in visiting order, their depths, and the edges followed. */
  datatype CausalTrace = CausalTrace(
    events: seq<EventId>,
    depths: map<EventId, int>,
    edges: seq<(EventId, EventId)>)

  /** The edges that leave the events of `s` lying above depth `d`, in order. */
  ghost function EdgesFrom(g: Adj<EventId>, s: seq<EventId>, depths: map<EventId, int>, d: nat): seq<(EventId, EventId)>
    requires forall e :: e in s ==> e in depths
  {
    if s == [] then []
    else
      var e := s[|s| - 1];
      EdgesFrom(g, s[..|s| - 1], depths, d) +
      if depths[e] < d then Fan(e, Out(g, e)) else []
  }

  /** The pairs of `e` with each node of `row`, in order. */
  ghost function Fan(e: EventId, row: seq<EventId>): seq<(EventId, EventId)> {
    if row == [] then [] else Fan(e, row[..|row| - 1]) + [(e, row[|row| - 1])]
  }

  /** What a breadth-first trace of `g` from `root` down to depth `d` must report. */
  ghost predicate IsTrace(g: Adj<EventId>, root: EventId, d: nat, t: CausalTrace) {
    && NoDuplicates(t.events)
    && (forall e :: e in t.events <==> e in Ball(g, root, d))
    && (forall e :: e in t.depths <==> e in Ball(g, root, d))
    && (forall e :: e in t.depths ==> t.depths[e] >= 0 && Shortest(g, root, e, t.depths[e]))
    && (forall i, j :: 0 <= i < j < |t.events| ==> t.depths[t.events[i]] <= t.depths[t.events[j]])
    && t.edges == EdgesFrom(g, t.events, t.depths, d)
  }

  lemma {:induction false} EdgesFromExtended(g: Adj<EventId>, s: seq<EventId>, a: map<EventId, int>,
                                             b: map<EventId, int>, d: nat)
    requires forall e :: e in s ==> e in a && e in b && a[e] == b[e]
    ensures EdgesFrom(g, s, a, d) == EdgesFrom(g, s, b, d)
  {
    if s != [] {
      EdgesFromExtended(g, s[..|s| - 1], a, b, d);
    }
  }

  /** `balls[n]` is the ball of radius `n`, for every radius the search can meet. */
  ghost predicate AreBalls(g: Adj<EventId>, root: EventId, d: nat, balls: seq<set<EventId>>) {
    && |balls| == d + 1
    && forall n {:trigger Ball(g, root, n)} :: 0 <= n <= d ==> balls[n] == Ball(g, root, n)
  }

  lemma BallsUpTo(g: Adj<EventId>, root: EventId, d: nat) returns (balls: seq<set<EventId>>)
    ensures AreBalls(g, root, d, balls)
    ensures balls[0] == {root}
  {
    balls := seq(d + 1, n requires 0 <= n => Ball(g, root, n));
    assert Ball(g, root, 0) == {root};
  }

  /** The search state: `events[..i]` are finished, the rest wait in the queue. */
  ghost predicate Frontier(balls: seq<set<EventId>>, events: seq<EventId>, depths: map<EventId, int>, i: nat,
                           level: nat) {
    && i <= |events|
    && level < |balls|
    && NoDuplicates(events)
    && (forall e :: e in events <==> e in depths)
    && balls[level] <= depths.Keys
    && (forall e :: e in depths ==> 0 <= depths[e] < |balls| && depths[e] <= level + 1 && e in balls[depths[e]])
    && (forall e :: e in depths && depths[e] > 0 ==> e !in balls[depths[e] - 1])
    && (forall j, k :: 0 <= j < k < |events| ==> depths[events[j]] <= depths[events[k]])
  }

  ghost predicate Finished(g: Adj<EventId>, d: nat, events: seq<EventId>, depths: map<EventId, int>, i: nat)
    requires i <= |events| && forall e :: e in events ==> e in depths
  {
    forall j, x :: 0 <= j < i && depths[events[j]] < d && x in Out(g, events[j]) ==> x in depths
  }

  /** Every node of the next level was found by then. */
  lemma LevelComplete(g: Adj<EventId>, root: EventId, d: nat, balls: seq<set<EventId>>,
                      events: seq<EventId>, depths: map<EventId, int>, i: nat, level: nat)
    requires AreBalls(g, root, d, balls)
    requires Frontier(balls, events, depths, i, level) && Finished(g, d, events, depths, i)
    requires level < d
    requires forall j :: i <= j < |events| ==> depths[events[j]] > level
    ensures balls[level + 1] <= depths.Keys
  {
    assert balls[level + 1] == Ball(g, root, level + 1) && balls[level] == Ball(g, root, level);
    forall x | x in balls[level + 1]
      ensures x in depths
    {
      if x !in balls[level] {
        var p :| p in Ball(g, root, level) && x in Out(g, p);
        DepthAtMost(g, root, d, balls, p, depths[p], level);
        var j :| 0 <= j < |events| && events[j] == p;
        assert j < i;
      }
    }
  }

  lemma DepthAtMost(g: Adj<EventId>, root: EventId, d: nat, balls: seq<set<EventId>>, e: EventId, n: nat, k: nat)
    requires AreBalls(g, root, d, balls) && n <= d && k <= d
    requires e in balls[k] && (n > 0 ==> e !in balls[n - 1])
    ensures n <= k
  {
    if k < n {
      BallGrows(g, root, k, n - 1);
    }
  }

  lemma {:induction false} AllLevelsComplete(g: Adj<EventId>, root: EventId, d: nat, balls: seq<set<EventId>>,
                                             events: seq<EventId>, depths: map<EventId, int>, level: nat)
    requires AreBalls(g, root, d, balls)
    requires Frontier(balls, events, depths, |events|, level) && Finished(g, d, events, depths, |events|)
    ensures balls[d] <= depths.Keys
    decreases d - level
  {
    if level < d {
      LevelComplete(g, root, d, balls, events, depths, |events|, level);
      AllLevelsComplete(g, root, d, balls, events, depths, level + 1);
    }
  }

  /** The waiting entries are the unfinished events with their depths. */
  ghost predicate Waiting(queue: seq<(EventId, int)>, events: seq<EventId>, depths: map<EventId, int>, i: nat)
    requires forall e :: e in events ==> e in depths
  {
    && |queue| == |events| - i
    && forall j :: 0 <= j < |queue| ==> queue[j] == (events[i + j], depths[events[i + j]])
  }

  lemma Discover(balls: seq<set<EventId>>, events: seq<EventId>, depths: map<EventId, int>, i: nat, level: nat,
                 x: EventId)
    requires Frontier(balls, events, depths, i, level) && level + 1 < |balls|
    requires x in balls[level + 1] && x !in depths
    ensures Frontier(balls, events + [x], depths[x := level + 1], i, level)
  {
    var events', depths' := events + [x], depths[x := level + 1];
    forall j, k | 0 <= j < k < |events'|
      ensures depths'[events'[j]] <= depths'[events'[k]]
    {
      assert events'[j] == events[j] && events[j] in depths;
      if k < |events| {
        assert events'[k] == events[k] && events[k] in depths;
      }
    }
  }

  datatype Found = Found(events: seq<EventId>, depths: map<EventId, int>)

  /** Adds the unseen nodes of `row` at depth `d`, in order. */
  ghost function Follow(s: Found, row: seq<EventId>, d: int): Found {
    if row == [] then s
    else
      var t := Follow(s, row[..|row| - 1], d);
      var x := row[|row| - 1];
      if x in t.depths then t else Found(t.events + [x], t.depths[x := d])
  }

  /** `t` extends `s`: same prefix, same depths, and it only grows inside `all`. */
  ghost predicate Extends(s: Found, t: Found, d: int) {
    && s.events <= t.events
    && (forall e :: e in s.depths ==> e in t.depths && t.depths[e] == s.depths[e])
    && (forall j :: |s.events| <= j < |t.events| ==> t.events[j] in t.depths && t.depths[t.events[j]] == d)
  }

  lemma {:induction false} FollowKeepsFrontier(balls: seq<set<EventId>>, s: Found, row: seq<EventId>, i: nat,
                                               level: nat)
    requires Frontier(balls, s.events, s.depths, i, level) && level + 1 < |balls|
    requires forall x :: x in row ==> x in balls[level + 1]
    ensures var t := Follow(s, row, level + 1);
            Frontier(balls, t.events, t.depths, i, level) && forall x :: x in row ==> x in t.depths
  {
    if row != [] {
      var init, x := row[..|row| - 1], row[|row| - 1];
      assert row == init + [x];
      assert x in row && forall y :: y in init ==> y in row;
      FollowKeepsFrontier(balls, s, init, i, level);
      var t := Follow(s, init, level + 1);
      if x !in t.depths {
        Discover(balls, t.events, t.depths, i, level, x);
      }
    }
  }

  lemma {:induction false} FollowExtends(s: Found, row: seq<EventId>, d: int)
    requires forall e :: e in s.events ==> e in s.depths
    ensures Extends(s, Follow(s, row, d), d)
    ensures forall e :: e in Follow(s, row, d).depths ==> e in s.depths || e in row
  {
    if row != [] {
      FollowExtends(s, row[..|row| - 1], d);
      assert forall y :: y in row[..|row| - 1] ==> y in row;
    }
  }

  lemma {:induction false} FollowShrinks(s: Found, row: seq<EventId>, d: int, all: set<EventId>)
    requires forall x :: x in row ==> x in all
    requires s.depths.Keys <= all
    ensures var t := Follow(s, row, d);
            t.depths.Keys <= all && (t == s || all - t.depths.Keys < all - s.depths.Keys)
  {
    if row != [] {
      var init, x := row[..|row| - 1], row[|row| - 1];
      assert x in row && forall y :: y in init ==> y in row;
      FollowShrinks(s, init, d, all);
      var t := Follow(s, init, d);
      if x !in t.depths {
        assert t.depths[x := d].Keys == t.depths.Keys + {x};
        assert all - (t.depths.Keys + {x}) < all - t.depths.Keys;
      }
    }
  }

  /** The queue entries of newly found events. */
  ghost function Entries(xs: seq<EventId>, d: int): seq<(EventId, int)> {
    if xs == [] then [] else Entries(xs[..|xs| - 1], d) + [(xs[|xs| - 1], d)]
  }

  lemma {:induction false} EntriesAt(xs: seq<EventId>, d: int)
    ensures |Entries(xs, d)| == |xs| && forall j :: 0 <= j < |xs| ==> Entries(xs, d)[j] == (xs[j], d)
  {
    if xs != [] {
      EntriesAt(xs[..|xs| - 1], d);
    }
  }

  /** Follows the edges of one event. */
  method Expand(row: seq<EventId>, curr: EventId, depth: int, events0: seq<EventId>, depths0: map<EventId, int>,
                queue0: seq<(EventId, int)>, edges0: seq<(EventId, EventId)>)
    returns (events: seq<EventId>, depths: map<EventId, int>, queue: seq<(EventId, int)>,
             edges: seq<(EventId, EventId)>)
    ensures Found(events, depths) == Follow(Found(events0, depths0), row, depth + 1)
    ensures events0 <= events && queue == queue0 + Entries(events[|events0|..], depth + 1)
    ensures edges == edges0 + Fan(curr, row)
  {
    events, depths, queue, edges := events0, depths0, queue0, edges0;
    for k := 0 to |row|
      invariant Found(events, depths) == Follow(Found(events0, depths0), row[..k], depth + 1)
      invariant events0 <= events && queue == queue0 + Entries(events[|events0|..], depth + 1)
      invariant edges == edges0 + Fan(curr, row[..k])
    {
      var x := row[k];
      assert row[..k + 1][..k] == row[..k];
      edges := edges + [(curr, x)];
      if x !in depths {
        ghost var newer := (events + [x])[|events0|..];
        assert newer[..|newer| - 1] == events[|events0|..];
        events := events + [x];
        depths := depths[x := depth + 1];
        queue := queue + [(x, depth + 1)];
      }
    }
    assert row[..|row|] == row;
  }

  /** The variables of the trace loop. */
  datatype Search = Search(events: seq<EventId>, depths: map<EventId, int>, queue: seq<(EventId, int)>,
                           edges: seq<(EventId, EventId)>)

  /** The search state between two rounds of the trace loop. */
  ghost predicate Searching(g: Adj<EventId>, d: nat, balls: seq<set<EventId>>, s: Search, i: nat, level: nat) {
    match s
    case Search(events, depths, queue, edges) =>
      && Frontier(balls, events, depths, i, level)
      && Finished(g, d, events, depths, i)
      && Waiting(queue, events, depths, i)
      && (queue != [] ==> queue[0].1 >= level)
      && edges == EdgesFrom(g, events[..i], depths, d)
  }

  /** Taking the first waiting event, and moving to its level. */
  lemma Advance(g: Adj<EventId>, root: EventId, d: nat, balls: seq<set<EventId>>,
                events: seq<EventId>, depths: map<EventId, int>, queue: seq<(EventId, int)>,
                edges: seq<(EventId, EventId)>, i: nat, level: nat) returns (level': nat)
    requires AreBalls(g, root, d, balls) && Searching(g, d, balls, Search(events, depths, queue, edges), i, level)
    requires queue != []
    ensures i < |events| && queue[0] == (events[i], depths[events[i]]) && level' == depths[events[i]]
    ensures Frontier(balls, events, depths, i + 1, level')
  {
    level' := level;
    assert queue[0] == (events[i], depths[events[i]]);
    if queue[0].1 > level {
      LevelComplete(g, root, d, balls, events, depths, i, level);
      level' := level + 1;
    }
  }

  /** At the depth bound an event is finished without following its edges. */
  lemma SkipRound(g: Adj<EventId>, root: EventId, d: nat, balls: seq<set<EventId>>,
                  events: seq<EventId>, depths: map<EventId, int>, queue: seq<(EventId, int)>,
                  edges: seq<(EventId, EventId)>, i: nat, level: nat)
    requires AreBalls(g, root, d, balls) && Searching(g, d, balls, Search(events, depths, queue, edges), i, level)
    requires queue != [] && queue[0].1 >= d
    ensures Searching(g, d, balls, Search(events, depths, queue[1..], edges), i + 1, queue[0].1)
  {
    hide Finished, EdgesFrom, Waiting, AreBalls;
    var level' := Advance(g, root, d, balls, events, depths, queue, edges, i, level);
    SkipFinished(g, d, events, depths, i);
    SkipWaiting(events, depths, queue, i);
  }

  lemma SkipFinished(g: Adj<EventId>, d: nat, events: seq<EventId>, depths: map<EventId, int>, i: nat)
    requires i < |events| && (forall e :: e in events ==> e in depths) && Finished(g, d, events, depths, i)
    requires depths[events[i]] >= d
    ensures Finished(g, d, events, depths, i + 1)
    ensures EdgesFrom(g, events[..i + 1], depths, d) == EdgesFrom(g, events[..i], depths, d)
  {
    assert events[..i + 1][..i] == events[..i];
  }

  lemma SkipWaiting(events: seq<EventId>, depths: map<EventId, int>, queue: seq<(EventId, int)>, i: nat)
    requires i < |events| && (forall e :: e in events ==> e in depths) && Waiting(queue, events, depths, i)
    requires queue != []
    ensures Waiting(queue[1..], events, depths, i + 1)
    ensures |queue| > 1 ==> i + 1 < |events| && queue[1] == (events[i + 1], depths[events[i + 1]])
  {
  }

  lemma FollowWaiting(events: seq<EventId>, depths: map<EventId, int>, queue: seq<(EventId, int)>, i: nat,
                      events': seq<EventId>, depths': map<EventId, int>, d: int)
    requires forall e :: e in events ==> e in depths
    requires forall e :: e in events' ==> e in depths'
    requires i < |events| && Waiting(queue, events, depths, i)
    requires Extends(Found(events, depths), Found(events', depths'), d)
    ensures Waiting(queue[1..] + Entries(events'[|events|..], d), events', depths', i + 1)
  {
    var newer := events'[|events|..];
    EntriesAt(newer, d);
    var queue' := queue[1..] + Entries(newer, d);
    forall j | 0 <= j < |queue'|
      ensures queue'[j] == (events'[i + 1 + j], depths'[events'[i + 1 + j]])
    {
      if j < |queue| - 1 {
        assert queue'[j] == queue[j + 1] == (events[i + 1 + j], depths[events[i + 1 + j]]);
      } else {
        assert queue'[j] == Entries(newer, d)[j - (|queue| - 1)];
      }
    }
  }

  lemma FollowFinished(g: Adj<EventId>, d: nat, events: seq<EventId>, depths: map<EventId, int>, i: nat,
                       events': seq<EventId>, depths': map<EventId, int>, d': int)
    requires forall e :: e in events ==> e in depths
    requires forall e :: e in events' ==> e in depths'
    requires i < |events| && Finished(g, d, events, depths, i)
    requires Extends(Found(events, depths), Found(events', depths'), d')
    requires depths[events[i]] < d ==> forall x :: x in Out(g, events[i]) ==> x in depths'
    ensures Finished(g, d, events', depths', i + 1)
  {
    forall j, x | 0 <= j < i + 1 && depths'[events'[j]] < d && x in Out(g, events'[j])
      ensures x in depths'
    {
      assert events'[j] == events[j] && events[j] in depths;
    }
  }

  /** Below the bound an event is finished by following its edges. */
  lemma FollowRound(g: Adj<EventId>, d: nat, balls: seq<set<EventId>>,
                    events: seq<EventId>, depths: map<EventId, int>, queue: seq<(EventId, int)>,
                    edges: seq<(EventId, EventId)>, i: nat, level: nat, level': nat,
                    events': seq<EventId>, depths': map<EventId, int>)
    requires Searching(g, d, balls, Search(events, depths, queue, edges), i, level) && queue != []
    requires i < |events| && level' == depths[events[i]] < d
    requires Frontier(balls, events', depths', i + 1, level')
    requires Extends(Found(events, depths), Found(events', depths'), level' + 1)
    requires forall x :: x in Out(g, events[i]) ==> x in depths'
    ensures Searching(g, d, balls, Search(events', depths', queue[1..] + Entries(events'[|events|..], level' + 1),
                                          edges + Fan(events[i], Out(g, events[i]))), i + 1, level')
  {
    var queue' := queue[1..] + Entries(events'[|events|..], level' + 1);
    FollowFinished(g, d, events, depths, i, events', depths', level' + 1);
    FollowWaiting(events, depths, queue, i, events', depths', level' + 1);
    assert queue' != [] ==> queue'[0].1 >= level' by {
      if queue' != [] {
        assert queue'[0] == (events'[i + 1], depths'[events'[i + 1]]);
        assert depths'[events'[i]] <= depths'[events'[i + 1]];
      }
    }
    EdgesFollowed(g, d, events, depths, events', depths', i, level' + 1);
  }

  lemma EdgesFollowed(g: Adj<EventId>, d: nat, events: seq<EventId>, depths: map<EventId, int>,
                      events': seq<EventId>, depths': map<EventId, int>, i: nat, d': int)
    requires forall e :: e in events ==> e in depths
    requires forall e :: e in events' ==> e in depths'
    requires i < |events| && Extends(Found(events, depths), Found(events', depths'), d') && depths[events[i]] < d
    ensures EdgesFrom(g, events'[..i + 1], depths', d)
            == EdgesFrom(g, events[..i], depths, d) + Fan(events[i], Out(g, events[i]))
  {
    assert events'[..i + 1][..i] == events[..i];
    EdgesFromExtended(g, events[..i], depths, depths', d);
  }

  /** Everything found is in the ball of its depth. */
  lemma FrontierInBall(balls: seq<set<EventId>>, events: seq<EventId>, depths: map<EventId, int>, i: nat, level: nat)
    requires Frontier(balls, events, depths, i + 1, level)
    ensures forall e :: e in events ==> e in depths
    ensures i < |events| && events[i] in depths && 0 <= depths[events[i]] < |balls|
    ensures events[i] in balls[depths[events[i]]]
  {
    assert events[i] in events;
  }

  /** Following the edges of the event at hand keeps the search state. */
  lemma RoundKeeps(g: Adj<EventId>, root: EventId, d: nat, balls: seq<set<EventId>>,
                   events: seq<EventId>, depths: map<EventId, int>, queue: seq<(EventId, int)>,
                   edges: seq<(EventId, EventId)>, i: nat, level: nat, level': nat)
    requires AreBalls(g, root, d, balls)
    requires Searching(g, d, balls, Search(events, depths, queue, edges), i, level) && queue != []
    requires Frontier(balls, events, depths, i + 1, level')
    requires i < |events| && events[i] in depths && depths[events[i]] == level' < d
    ensures var t := Follow(Found(events, depths), Out(g, events[i]), level' + 1);
            && events <= t.events
            && Searching(g, d, balls, Search(t.events, t.depths,
                                             queue[1..] + Entries(t.events[|events|..], level' + 1),
                                             edges + Fan(events[i], Out(g, events[i]))), i + 1, level')
  {
    hide Frontier, Follow, Searching, Entries, Fan, AreBalls;
    var s, row := Found(events, depths), Out(g, events[i]);
    FrontierInBall(balls, events, depths, i, level');
    BallCount(g, root, d, balls);
    RowInNextBall(g, root, d, balls, events[i], level');
    FollowKeepsFrontier(balls, s, row, i + 1, level');
    FollowExtends(s, row, level' + 1);
    var t := Follow(s, row, level' + 1);
    FollowRound(g, d, balls, events, depths, queue, edges, i, level, level', t.events, t.depths);
  }

  lemma BallCount(g: Adj<EventId>, root: EventId, d: nat, balls: seq<set<EventId>>)
    requires AreBalls(g, root, d, balls)
    ensures |balls| == d + 1
  {
  }

  lemma NoEntries(d: int)
    ensures Entries([], d) == []
  {
  }

  /** One round of the trace loop below the depth bound, and why the rounds end. */
  lemma Round(g: Adj<EventId>, root: EventId, d: nat, balls: seq<set<EventId>>, all: set<EventId>,
              events: seq<EventId>, depths: map<EventId, int>, queue: seq<(EventId, int)>,
              edges: seq<(EventId, EventId)>, i: nat, level: nat) returns (t: Found)
    requires AreBalls(g, root, d, balls) && Nodes(g) <= all && depths.Keys <= all
    requires Searching(g, d, balls, Search(events, depths, queue, edges), i, level) && queue != [] && queue[0].1 < d
    ensures t == Follow(Found(events, depths), Out(g, queue[0].0), queue[0].1 + 1)
    ensures events <= t.events && queue[0].1 >= 0
    ensures Searching(g, d, balls, Search(t.events, t.depths,
                                          queue[1..] + Entries(t.events[|events|..], queue[0].1 + 1),
                                          edges + Fan(queue[0].0, Out(g, queue[0].0))), i + 1, queue[0].1)
    ensures t.depths.Keys <= all
    ensures (t.depths == depths && Entries(t.events[|events|..], queue[0].1 + 1) == [])
         || all - t.depths.Keys < all - depths.Keys
  {
    hide Frontier, Follow, Searching, Entries, Fan, AreBalls, Nodes;
    var level' := Advance(g, root, d, balls, events, depths, queue, edges, i, level);
    FrontierInBall(balls, events, depths, i, level');
    BallCount(g, root, d, balls);
    RowInNextBall(g, root, d, balls, events[i], level');
    t := Follow(Found(events, depths), Out(g, events[i]), level' + 1);
    RoundKeeps(g, root, d, balls, events, depths, queue, edges, i, level, level');
    FollowShrinks(Found(events, depths), Out(g, events[i]), level' + 1, all);
    NoEntries(level' + 1);
    assert t.events == events ==> t.events[|events|..] == [];
  }

  /** When nothing waits, the search has found exactly the ball of radius `d`. */
  lemma Conclude(g: Adj<EventId>, root: EventId, d: nat, balls: seq<set<EventId>>,
                 events: seq<EventId>, depths: map<EventId, int>, edges: seq<(EventId, EventId)>, i: nat, level: nat)
    requires AreBalls(g, root, d, balls) && Searching(g, d, balls, Search(events, depths, [], edges), i, level)
    ensures IsTrace(g, root, d, CausalTrace(events, depths, edges))
  {
    assert events[..i] == events;
    AllLevelsComplete(g, root, d, balls, events, depths, level);
    FrontierIsTrace(g, root, d, balls, events, depths, level);
  }

  lemma Start(g: Adj<EventId>, root: EventId, d: nat) returns (balls: seq<set<EventId>>)
    ensures AreBalls(g, root, d, balls)
    ensures Searching(g, d, balls, Search([root], map[root := 0], [(root, 0)], []), 0, 0)
  {
    balls := BallsUpTo(g, root, d);
  }

  /** The loop shared by both trace directions. */
  method Trace(g: Adj<EventId>, root: EventId, maxDepth: nat) returns (t: CausalTrace)
    ensures IsTrace(g, root, maxDepth, t)
  {
    hide *;
    var events, edges := [root], [];
    var depths: map<EventId, int> := map[root := 0];
    var queue: seq<(EventId, int)> := [(root, 0)];
    ghost var i: nat, level: nat := 0, 0;
    ghost var all := Nodes(g) + {root};
    ghost var balls := Start(g, root, maxDepth);
    while queue != []
      invariant Searching(g, maxDepth, balls, Search(events, depths, queue, edges), i, level)
      invariant depths.Keys <= all
      decreases all - depths.Keys, |queue|
    {
      var (curr, depth) := queue[0];
      if depth >= maxDepth {
        SkipRound(g, root, maxDepth, balls, events, depths, queue, edges, i, level);
        queue := queue[1..];
      } else {
        ghost var t := Round(g, root, maxDepth, balls, all, events, depths, queue, edges, i, level);
        events, depths, queue, edges := Expand(Out(g, curr), curr, depth, events, depths, queue[1..], edges);
      }
      i, level := i + 1, depth;
    }
    Conclude(g, root, maxDepth, balls, events, depths, edges, i, level);
    t := CausalTrace(events, depths, edges);
  }

  lemma RowInNextBall(g: Adj<EventId>, root: EventId, d: nat, balls: seq<set<EventId>>, e: EventId, n: nat)
    requires AreBalls(g, root, d, balls) && n < d && e in balls[n]
    ensures forall x :: x in Out(g, e) ==> x in balls[n + 1] && x in Nodes(g)
  {
    assert balls[n] == Ball(g, root, n) && balls[n + 1] == Ball(g, root, n + 1);
  }

  lemma FrontierIsTrace(g: Adj<EventId>, root: EventId, d: nat, balls: seq<set<EventId>>,
                        events: seq<EventId>, depths: map<EventId, int>, level: nat)
    requires AreBalls(g, root, d, balls)
    requires Frontier(balls, events, depths, |events|, level) && balls[d] <= depths.Keys
    ensures IsTrace(g, root, d, CausalTrace(events, depths, EdgesFrom(g, events, depths, d)))
  {
    assert balls[d] == Ball(g, root, d);
    forall e | e in depths
      ensures Shortest(g, root, e, depths[e]) && e in Ball(g, root, d)
    {
      var n := depths[e];
      assert Ball(g, root, n) == balls[n];
      if n > 0 {
        assert Ball(g, root, n - 1) == balls[n - 1];
      }
      BallGrows(g, root, n, d);
    }
  }

  /** There is a walk of at most `d` edges. */
  ghost predicate Within(g: Adj<EventId>, a: EventId, b: EventId, d: nat) {
    exists n: nat :: n <= d && Steps(g, a, b, n)
  }

  /** Membership in a trace is the existence of a short enough walk, and depths are shortest distances. */
  lemma TraceMembership(g: Adj<EventId>, root: EventId, d: nat, t: CausalTrace, e: EventId)
    requires IsTrace(g, root, d, t)
    ensures e in t.events <==> Within(g, root, e, d)
    ensures e in t.events ==> t.depths[e] >= 0 && Steps(g, root, e, t.depths[e])
    ensures e in t.events ==> forall n: nat :: Steps(g, root, e, n) ==> t.depths[e] <= n
  {
    if e in t.events {
      var n := BallHasWalk(g, root, e, d);
      ShortestIsWalk(g, root, e, t.depths[e]);
    }
    if Within(g, root, e, d) {
      var n: nat :| n <= d && Steps(g, root, e, n);
      WalkEndsInBall(g, root, e, n, d);
    }
  }

  lemma ShortestIsLeast(g: Adj<EventId>, root: EventId, e: EventId, k: nat, n: nat)
    requires Shortest(g, root, e, k) && Steps(g, root, e, n)
    ensures k <= n
  {
    if n < k {
      WalkEndsInBall(g, root, e, n, k - 1);
    }
  }

  lemma ShortestIsWalk(g: Adj<EventId>, root: EventId, e: EventId, k: nat)
    requires Shortest(g, root, e, k)
    ensures Steps(g, root, e, k) && forall n: nat :: Steps(g, root, e, n) ==> k <= n
  {
    hide *;
    forall n: nat | Steps(g, root, e, n)
      ensures k <= n
    {
      ShortestIsLeast(g, root, e, k, n);
    }
    ShortestInBall(g, root, e, k);
    var m := BallHasWalk(g, root, e, k);
  }

  lemma ShortestInBall(g: Adj<EventId>, root: EventId, e: EventId, k: nat)
    requires Shortest(g, root, e, k)
    ensures e in Ball(g, root, k)
  {
  }

  lemma BallsDual(g: Graph, a: EventId, b: EventId, d: nat)
    requires Converse(g.causes, g.effects)
    ensures a in Ball(g.causes, b, d) <==> b in Ball(g.effects, a, d)
  {
    if a in Ball(g.causes, b, d) {
      var n := BallHasWalk(g.causes, b, a, d);
      ConverseSteps(g.causes, g.effects, a, b, n);
      WalkEndsInBall(g.effects, a, b, n, d);
    }
    if b in Ball(g.effects, a, d) {
      var n := BallHasWalk(g.effects, a, b, d);
      ConverseSteps(g.causes, g.effects, a, b, n);
      WalkEndsInBall(g.causes, b, a, n, d);
    }
  }

  /** Upstream and downstream traces agree for all roots and depths exactly when
      `effects` is the converse of `causes`. */
  lemma TracesDual(g: Graph)
    requires Sound(g)
    ensures Converse(g.causes, g.effects) <==>
            forall a, b, d: nat :: a in Ball(g.causes, b, d) <==> b in Ball(g.effects, a, d)
  {
    if Converse(g.causes, g.effects) {
      forall a, b, d: nat
        ensures a in Ball(g.causes, b, d) <==> b in Ball(g.effects, a, d)
      {
        BallsDual(g, a, b, d);
      }
    } else {
      var a, b :| !(b in Out(g.effects, a) <==> a in Out(g.causes, b));
      assert b in Out(g.effects, a) && a !in Out(g.causes, b) && a != b;
      assert b in Ball(g.effects, a, 1);
      assert Ball(g.causes, b, 0) == {b};
      assert a !in Ball(g.causes, b, 1);
      assert !(a in Ball(g.causes, b, 1) <==> b in Ball(g.effects, a, 1));
    }
  }

  /** The edges of a trace: from each event above the last level to each event of its row. */
  lemma EdgesExactly(g: Adj<EventId>, root: EventId, d: nat, t: CausalTrace, a: EventId, b: EventId)
    requires IsTrace(g, root, d, t)
    ensures (a, b) in t.edges <==> a in t.events && t.depths[a] < d && b in Out(g, a)
  {
    hide Ball, Shortest;
    assert forall e :: e in t.events ==> e in t.depths;
    EdgesFromHas(g, t.events, t.depths, d, a, b);
  }

  lemma {:induction false} EdgesFromHas(g: Adj<EventId>, s: seq<EventId>, depths: map<EventId, int>, d: nat,
                                        a: EventId, b: EventId)
    requires forall e :: e in s ==> e in depths
    ensures (a, b) in EdgesFrom(g, s, depths, d) <==> a in s && depths[a] < d && b in Out(g, a)
  {
    hide Fan, Out;
    if s != [] {
      var init, e := s[..|s| - 1], s[|s| - 1];
      EdgesFromHas(g, init, depths, d, a, b);
      FanHas(e, Out(g, e), a, b);
      assert a in s <==> a in init || a == e;
    }
  }

  lemma {:induction false} FanHas(e: EventId, row: seq<EventId>, a: EventId, b: EventId)
    ensures (a, b) in Fan(e, row) <==> a == e && b in row
  {
    if row != [] {
      FanHas(e, row[..|row| - 1], a, b);
      assert row == row[..|row| - 1] + [row[|row| - 1]];
    }
  }
}
