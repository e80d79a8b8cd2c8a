/** The projection index and multi-predicate queries over it. */
module Projection {
  import opened Core
  import Morton
  import opened MortonIntervals

  /** What the index sees of an event; `code` is its chunk's Morton code, when it has a position and a grid. */
  datatype Event = Event(sequence: int, entity: EntityId, schema: int, valid: Timestamp, code: Option<int>)

  /** Inclusive ticks on one clock. */
  datatype Span = Span(clock: int, min: int, max: int)

  datatype Query = Query(
    entity: Option<EntityId>, schema: Option<int>, time: Option<Span>, intervals: Option<seq<Interval>>)
  {
    predicate Accepts(e: Event) {
      && (entity.Some? ==> e.entity == entity.value)
      && (schema.Some? ==> e.schema == schema.value)
      && (time.Some? ==> e.valid.clock == time.value.clock && time.value.min <= e.valid.ticks <= time.value.max)
      && (intervals.Some? ==> e.code.Some? && Covered(intervals.value, e.code.value))
    }

    /** Bounds in order, as ordered maps demand of a range. */
    ghost predicate Bounded() {
      && (time.Some? ==> time.value.min <= time.value.max)
      && (intervals.Some? ==> Ordered(intervals.value))
    }

    predicate NoPredicate() {
      entity.None? && schema.None? && time.None? && intervals.None?
    }
  }

  function ByEntity(e: EntityId): Query {
    Query(Some(e), None, None, None)
  }

  function BySchema(s: int): Query {
    Query(None, Some(s), None, None)
  }

  function ByTime(span: Span): Query {
    Query(None, None, Some(span), None)
  }

  function ByCode(intervals: seq<Interval>): Query {
    Query(None, None, None, Some(intervals))
  }

  /** The linear filter: the sequences of the accepted events, in log order. */
  function Select(es: seq<Event>, q: Query): seq<int> {
    if es == [] then []
    else
      var last := es[|es| - 1];
      Select(es[..|es| - 1], q) + (if q.Accepts(last) then [last.sequence] else [])
  }

  ghost predicate InOrder(es: seq<Event>) {
    forall i, j :: 0 <= i < j < |es| ==> es[i].sequence < es[j].sequence
  }

  ghost predicate Hit(es: seq<Event>, q: Query, s: int) {
    exists i :: 0 <= i < |es| && es[i].sequence == s && q.Accepts(es[i])
  }

  lemma {:induction false} SelectHits(es: seq<Event>, q: Query)
    requires InOrder(es)
    ensures Increasing(Select(es, q))
    ensures forall s :: s in Select(es, q) <==> Hit(es, q, s)
  {
    hide Query.Accepts;
    if es != [] {
      var init, last := es[..|es| - 1], es[|es| - 1];
      SelectHits(init, q);
      HitSnoc(init, last, q);
      assert es == init + [last];
      forall s | s in Select(init, q)
        ensures s < last.sequence
      {
        assert Hit(init, q, s);
      }
      var found := Select(init, q);
      assert forall i :: 0 <= i < |found| ==> found[i] in found;
    }
  }

  lemma HitSnoc(es: seq<Event>, e: Event, q: Query)
    ensures forall s :: Hit(es + [e], q, s) <==> Hit(es, q, s) || (s == e.sequence && q.Accepts(e))
  {
    hide Query.Accepts;
    var all := es + [e];
    forall s
      ensures Hit(all, q, s) <==> Hit(es, q, s) || (s == e.sequence && q.Accepts(e))
    {
      if Hit(es, q, s) {
        var i :| 0 <= i < |es| && es[i].sequence == s && q.Accepts(es[i]);
        assert all[i] == es[i];
      }
      if s == e.sequence && q.Accepts(e) {
        assert all[|es|] == e;
      }
    }
  }

  lemma {:induction false} SameElements(a: seq<int>, b: seq<int>)
    requires Increasing(a) && Increasing(b)
    requires forall d :: d in a <==> d in b
    ensures a == b
  {
    assert a == [] || (a[0] in a && a[0] in b);
    assert b == [] || (b[0] in b && b[0] in a);
    if a != [] {
      assert a[0] == b[0];
      forall d
        ensures d in a[1..] <==> d in b[1..]
      {
        assert d in a <==> d == a[0] || d in a[1..];
        assert d in b <==> d == b[0] || d in b[1..];
      }
      SameElements(a[1..], b[1..]);
    }
  }

  /** A sorted list of the right sequences is the linear filter's answer. */
  lemma IsSelect(es: seq<Event>, q: Query, r: seq<int>)
    requires InOrder(es) && Increasing(r) && forall s :: s in r <==> Hit(es, q, s)
    ensures r == Select(es, q)
  {
    SelectHits(es, q);
    SameElements(r, Select(es, q));
  }

  /** A key's posting list: the accepted sequences in the order of indexing, except that a repetition of the last
      one is dropped. */
  function Posted(es: seq<Event>, q: Query): seq<int> {
    if es == [] then []
    else
      var last, list := es[|es| - 1], Posted(es[..|es| - 1], q);
      if q.Accepts(last) && !EndsWith(list, last.sequence) then list + [last.sequence] else list
  }

  predicate EndsWith(list: seq<int>, s: int) {
    list != [] && list[|list| - 1] == s
  }

  /** The sequences of the accepted events, sorted and without repetition. */
  function Sorted(es: seq<Event>, q: Query): (r: seq<int>)
    ensures Increasing(r)
  {
    if es == [] then []
    else
      var last := es[|es| - 1];
      if q.Accepts(last) then Insert(Sorted(es[..|es| - 1], q), last.sequence) else Sorted(es[..|es| - 1], q)
  }

  /** A sorted list of the right sequences is the sorted list, and the linear filter's answer when sequences
      increase. */
  lemma IsSorted(es: seq<Event>, q: Query, r: seq<int>)
    requires Increasing(r) && forall s :: s in r <==> Hit(es, q, s)
    ensures r == Sorted(es, q)
    ensures InOrder(es) ==> r == Select(es, q)
  {
    hide Select, Increasing, Hit;
    SortedHits(es, q);
    SameElements(r, Sorted(es, q));
    if InOrder(es) {
      IsSelect(es, q, r);
    }
  }

  lemma {:induction false} PostedHits(es: seq<Event>, q: Query)
    ensures forall s :: s in Posted(es, q) <==> Hit(es, q, s)
  {
    hide Query.Accepts, Hit;
    if es == [] {
      NoHit(q);
    } else {
      var init, last := es[..|es| - 1], es[|es| - 1];
      PostedHits(init, q);
      HitSnoc(init, last, q);
      assert es == init + [last];
    }
  }

  lemma {:induction false} SortedHits(es: seq<Event>, q: Query)
    ensures forall s :: s in Sorted(es, q) <==> Hit(es, q, s)
  {
    hide Query.Accepts, Hit, Increasing;
    if es == [] {
      NoHit(q);
    } else {
      var init, last := es[..|es| - 1], es[|es| - 1];
      SortedHits(init, q);
      HitSnoc(init, last, q);
      assert es == init + [last];
    }
  }

  lemma NoHit(q: Query)
    ensures forall s :: !Hit([], q, s)
  {
  }

  /** The accepted events were indexed in sequence order. */
  ghost predicate Rising(es: seq<Event>, q: Query) {
    forall i, j :: 0 <= i < j < |es| && q.Accepts(es[i]) && q.Accepts(es[j]) ==> es[i].sequence <= es[j].sequence
  }

  /** A posting list is sorted exactly when its events were indexed in sequence order. */
  lemma {:induction false} PostedIncreasingExactly(es: seq<Event>, q: Query)
    ensures Increasing(Posted(es, q)) <==> Rising(es, q)
  {
    hide Query.Accepts;
    if es != [] {
      var init, last := es[..|es| - 1], es[|es| - 1];
      PostedIncreasingExactly(init, q);
      RisingSnoc(init, last, q);
      assert es == init + [last];
      var list := Posted(init, q);
      PostedHits(init, q);
      if q.Accepts(last) {
        ExtendIncreasing(list, last.sequence);
      }
    }
  }

  ghost predicate Bounds(list: seq<int>, top: int) {
    forall s :: s in list ==> s <= top
  }

  lemma ExtendIncreasing(list: seq<int>, s: int)
    ensures var longer := if EndsWith(list, s) then list else list + [s];
            Increasing(longer) <==> Increasing(list) && Bounds(list, s)
  {
    var longer := if EndsWith(list, s) then list else list + [s];
    assert longer[|longer| - 1] == s;
    if Increasing(longer) {
      assert forall i :: 0 <= i < |list| ==> longer[i] == list[i];
    }
    if Increasing(list) && Bounds(list, s) && list != [] {
      assert list[|list| - 1] in list;
      assert forall i :: 0 <= i < |list| ==> list[i] in list;
    }
  }

  lemma RisingSnoc(es: seq<Event>, e: Event, q: Query)
    ensures Rising(es + [e], q) <==> Rising(es, q) && (q.Accepts(e) ==> forall s :: Hit(es, q, s) ==> s <= e.sequence)
  {
    hide Query.Accepts;
    var all := es + [e];
    assert all[|es|] == e && forall i :: 0 <= i < |es| ==> all[i] == es[i];
    if Rising(all, q) {
      assert Rising(es, q);
      forall s | q.Accepts(e) && Hit(es, q, s)
        ensures s <= e.sequence
      {
        var i :| 0 <= i < |es| && es[i].sequence == s && q.Accepts(es[i]);
        assert all[i] == es[i];
      }
    }
    if Rising(es, q) && (q.Accepts(e) ==> forall s :: Hit(es, q, s) ==> s <= e.sequence) {
      forall i, j | 0 <= i < j < |all| && q.Accepts(all[i]) && q.Accepts(all[j])
        ensures all[i].sequence <= all[j].sequence
      {
        if j == |es| {
          assert Hit(es, q, es[i].sequence);
        }
      }
    }
  }

  // ----- Intersection of sorted lists

  /** The merge of two lists, which finds their common elements when both are sorted. */
  function Meet(a: seq<int>, b: seq<int>): seq<int> {
    if a == [] || b == [] then []
    else if a[0] < b[0] then Meet(a[1..], b)
    else if a[0] > b[0] then Meet(a, b[1..])
    else [a[0]] + Meet(a[1..], b[1..])
  }

  lemma {:induction false} MeetSound(a: seq<int>, b: seq<int>)
    ensures forall d :: d in Meet(a, b) ==> d in a && d in b
    decreases |a| + |b|
  {
    if a != [] && b != [] {
      if a[0] < b[0] {
        MeetSound(a[1..], b);
      } else if a[0] > b[0] {
        MeetSound(a, b[1..]);
      } else {
        MeetSound(a[1..], b[1..]);
      }
    }
  }

  lemma {:induction false} MeetExact(a: seq<int>, b: seq<int>)
    requires Increasing(a) && Increasing(b)
    ensures Increasing(Meet(a, b))
    ensures forall d :: d in Meet(a, b) <==> d in a && d in b
    decreases |a| + |b|
  {
    if a != [] && b != [] {
      assert forall d :: d in a <==> d == a[0] || d in a[1..];
      assert forall d :: d in b <==> d == b[0] || d in b[1..];
      if a[0] < b[0] {
        MeetExact(a[1..], b);
      } else if a[0] > b[0] {
        MeetExact(a, b[1..]);
      } else {
        MeetExact(a[1..], b[1..]);
        HeadFirst(a, Meet(a[1..], b[1..]));
      }
    }
  }

  /** The head of a sorted list goes before any sorted part of its tail. */
  lemma HeadFirst(a: seq<int>, rest: seq<int>)
    requires a != [] && Increasing(a) && Increasing(rest) && forall d :: d in rest ==> d in a[1..]
    ensures Increasing([a[0]] + rest)
  {
    forall i | 0 <= i < |rest|
      ensures a[0] < rest[i]
    {
      assert rest[i] in rest;
      assert rest[i] in a[1..];
      var j :| 0 <= j < |a[1..]| && a[1..][j] == rest[i];
      assert a[j + 1] == rest[i];
    }
  }

  /** The merge loop: only common elements, and of sorted lists all of them, sorted. */
  method IntersectSorted(a: seq<int>, b: seq<int>) returns (out: seq<int>)
    ensures out == Meet(a, b)
    ensures forall d :: d in out ==> d in a && d in b
    ensures Increasing(a) && Increasing(b) ==> Increasing(out) && forall d :: d in out <==> d in a && d in b
  {
    hide Increasing;
    out := [];
    var i, j := 0, 0;
    assert a[0..] == a && b[0..] == b;
    while i < |a| && j < |b|
      invariant i <= |a| && j <= |b|
      invariant out + Meet(a[i..], b[j..]) == Meet(a, b)
      decreases |a| - i + |b| - j
    {
      assert a[i..][1..] == a[i + 1..] && b[j..][1..] == b[j + 1..];
      if a[i] < b[j] {
        i := i + 1;
      } else if a[i] > b[j] {
        j := j + 1;
      } else {
        out := out + [a[i]];
        i, j := i + 1, j + 1;
      }
    }
    assert Meet(a[i..], b[j..]) == [];
    assert out == Meet(a, b);
    MeetSound(a, b);
    if Increasing(a) && Increasing(b) {
      MeetExact(a, b);
    }
  }

  // ----- Queries of several predicates

  /** One more predicate's sequences, merged with what the earlier ones left. */
  function Narrowed(candidates: Option<seq<int>>, more: Option<seq<int>>): Option<seq<int>> {
    if more.None? then candidates
    else if candidates.None? then more
    else Some(Meet(candidates.value, more.value))
  }

  function EntityList(es: seq<Event>, q: Query): Option<seq<int>> {
    if q.entity.Some? then Some(Posted(es, ByEntity(q.entity.value))) else None
  }

  function SchemaList(es: seq<Event>, q: Query): Option<seq<int>> {
    if q.schema.Some? then Some(Posted(es, BySchema(q.schema.value))) else None
  }

  function TimeList(es: seq<Event>, q: Query): Option<seq<int>> {
    if q.time.Some? then Some(Sorted(es, ByTime(q.time.value))) else None
  }

  function CodeList(es: seq<Event>, q: Query): Option<seq<int>> {
    if q.intervals.Some? then Some(Sorted(es, ByCode(q.intervals.value))) else None
  }

  /** The lists of the query's predicates merged from left to right. */
  function Merged(es: seq<Event>, q: Query): Option<seq<int>> {
    Narrowed(Narrowed(Narrowed(EntityList(es, q), SchemaList(es, q)), TimeList(es, q)), CodeList(es, q))
  }

  function Answer(es: seq<Event>, q: Query): seq<int> {
    var merged := Merged(es, q);
    if merged.None? then [] else merged.value
  }

  /** Every predicate of the query is met by some event of this sequence. */
  ghost predicate HitEach(es: seq<Event>, q: Query, s: int) {
    && (q.entity.Some? ==> Hit(es, ByEntity(q.entity.value), s))
    && (q.schema.Some? ==> Hit(es, BySchema(q.schema.value), s))
    && (q.time.Some? ==> Hit(es, ByTime(q.time.value), s))
    && (q.intervals.Some? ==> Hit(es, ByCode(q.intervals.value), s))
  }

  /** Sorted, without repetition, and exactly the sequences at which every predicate is met. */
  ghost predicate Right(es: seq<Event>, q: Query) {
    && Increasing(Answer(es, q))
    && forall s :: s in Answer(es, q) <==> !q.NoPredicate() && HitEach(es, q, s)
  }

  predicate Allows(list: Option<seq<int>>, s: int) {
    list.Some? ==> s in list.value
  }

  ghost predicate InSequence(list: Option<seq<int>>) {
    list.Some? ==> Increasing(list.value)
  }

  lemma NarrowedAllows(a: Option<seq<int>>, b: Option<seq<int>>)
    ensures Narrowed(a, b).None? <==> a.None? && b.None?
    ensures forall s :: Allows(Narrowed(a, b), s) ==> Allows(a, s) && Allows(b, s)
    ensures InSequence(a) && InSequence(b) ==>
              InSequence(Narrowed(a, b)) && forall s :: Allows(Narrowed(a, b), s) <==> Allows(a, s) && Allows(b, s)
  {
    hide Increasing, Meet;
    if a.Some? && b.Some? {
      MeetSound(a.value, b.value);
      if InSequence(a) && InSequence(b) {
        MeetExact(a.value, b.value);
      }
    }
  }

  /** The predicates' own lists: which sequences they allow. */
  ghost predicate AllowEach(es: seq<Event>, q: Query, s: int) {
    && Allows(EntityList(es, q), s) && Allows(SchemaList(es, q), s)
    && Allows(TimeList(es, q), s) && Allows(CodeList(es, q), s)
  }

  lemma ListsAllow(es: seq<Event>, q: Query, s: int)
    ensures AllowEach(es, q, s) <==> HitEach(es, q, s)
  {
    hide Hit, Posted, Sorted, Query.Accepts;
    if q.entity.Some? {
      PostedHits(es, ByEntity(q.entity.value));
    }
    if q.schema.Some? {
      PostedHits(es, BySchema(q.schema.value));
    }
    if q.time.Some? {
      SortedHits(es, ByTime(q.time.value));
    }
    if q.intervals.Some? {
      SortedHits(es, ByCode(q.intervals.value));
    }
  }

  lemma MergedAllows(es: seq<Event>, q: Query)
    ensures Merged(es, q).None? <==> q.NoPredicate()
    ensures forall s :: Allows(Merged(es, q), s) ==> AllowEach(es, q, s)
    ensures InSequence(EntityList(es, q)) && InSequence(SchemaList(es, q)) ==>
              InSequence(Merged(es, q)) && forall s :: Allows(Merged(es, q), s) <==> AllowEach(es, q, s)
  {
    hide Posted, Sorted, Narrowed, Increasing, Allows;
    var one, two, three, four := EntityList(es, q), SchemaList(es, q), TimeList(es, q), CodeList(es, q);
    assert InSequence(three) && InSequence(four);
    NarrowedAllows(one, two);
    NarrowedAllows(Narrowed(one, two), three);
    NarrowedAllows(Narrowed(Narrowed(one, two), three), four);
  }

  /** In whatever order events were indexed, every sequence in an answer meets every predicate. */
  lemma AnswerSound(es: seq<Event>, q: Query, s: int)
    requires s in Answer(es, q)
    ensures HitEach(es, q, s) && !q.NoPredicate()
  {
    hide HitEach, AllowEach, EntityList, SchemaList, TimeList, CodeList;
    MergedAllows(es, q);
    assert Allows(Merged(es, q), s);
    ListsAllow(es, q, s);
  }

  lemma AnswerRight(es: seq<Event>, q: Query)
    requires InSequence(EntityList(es, q)) && InSequence(SchemaList(es, q))
    ensures Right(es, q)
  {
    hide Merged, HitEach, AllowEach, EntityList, SchemaList, Query.NoPredicate, Increasing;
    MergedAllows(es, q);
    assert Increasing(Answer(es, q)) by {
      NothingIncreases();
    }
    forall s
      ensures s in Answer(es, q) <==> !q.NoPredicate() && HitEach(es, q, s)
    {
      ListsAllow(es, q, s);
      assert Allows(Merged(es, q), s) <==> AllowEach(es, q, s);
    }
  }

  lemma NothingIncreases()
    ensures Increasing([])
  {
  }

  /** Events of one entity, and events of one schema, were indexed in sequence order. */
  ghost predicate Orderly(es: seq<Event>) {
    forall i, j :: 0 <= i < j < |es| && (es[i].entity == es[j].entity || es[i].schema == es[j].schema)
                   ==> es[i].sequence <= es[j].sequence
  }

  lemma OrderlyRises(es: seq<Event>, q: Query)
    requires Orderly(es) && (q.entity.Some? || q.schema.Some?)
    ensures Rising(es, q)
  {
    hide Covered;
  }

  lemma RisingOrderly(es: seq<Event>)
    requires forall k :: Rising(es, ByEntity(k))
    requires forall k :: Rising(es, BySchema(k))
    ensures Orderly(es)
  {
    forall i, j | 0 <= i < j < |es| && (es[i].entity == es[j].entity || es[i].schema == es[j].schema)
      ensures es[i].sequence <= es[j].sequence
    {
      if es[i].entity == es[j].entity {
        assert Rising(es, ByEntity(es[i].entity));
      } else {
        assert Rising(es, BySchema(es[i].schema));
      }
    }
  }

  /** All queries are answered rightly exactly when events of one entity, and of one schema, are indexed in
      sequence order: the two kinds of posting list that are merged without sorting. */
  lemma AnswersExactly(es: seq<Event>)
    ensures Orderly(es) <==> forall q: Query :: q.Bounded() ==> Right(es, q)
  {
    hide Rising, Right, Orderly, Posted, Increasing, Query.Bounded;
    if Orderly(es) {
      forall q: Query
        ensures Right(es, q)
      {
        if q.entity.Some? {
          OrderlyRises(es, ByEntity(q.entity.value));
          PostedIncreasingExactly(es, ByEntity(q.entity.value));
        }
        if q.schema.Some? {
          OrderlyRises(es, BySchema(q.schema.value));
          PostedIncreasingExactly(es, BySchema(q.schema.value));
        }
        AnswerRight(es, q);
      }
    }
    if forall q: Query :: q.Bounded() ==> Right(es, q) {
      forall k
        ensures Rising(es, ByEntity(k))
      {
        SingleRises(es, ByEntity(k));
      }
      forall k
        ensures Rising(es, BySchema(k))
      {
        SingleRises(es, BySchema(k));
      }
      RisingOrderly(es);
    }
  }

  lemma SingleRises(es: seq<Event>, q: Query)
    requires (exists k :: q == ByEntity(k)) || exists k :: q == BySchema(k)
    requires q.Bounded() ==> Right(es, q)
    ensures Rising(es, q)
  {
    hide Rising, Posted, Increasing;
    assert Answer(es, q) == Posted(es, q);
    PostedIncreasingExactly(es, q);
  }

  lemma HitEachIsHit(es: seq<Event>, q: Query, s: int)
    requires InOrder(es) && !q.NoPredicate()
    ensures HitEach(es, q, s) <==> Hit(es, q, s)
  {
    hide Covered;
    if Hit(es, q, s) {
      var i :| 0 <= i < |es| && es[i].sequence == s && q.Accepts(es[i]);
      assert HitEach(es, q, s);
    }
    if HitEach(es, q, s) {
      var i :| 0 <= i < |es| && es[i].sequence == s;
      assert forall j :: 0 <= j < |es| && es[j].sequence == s ==> j == i;
      assert q.Accepts(es[i]);
    }
  }

  /** With increasing sequences, the answer is the linear filter's; a query without predicates selects nothing. */
  lemma AnswerIsFilter(es: seq<Event>, q: Query)
    requires InOrder(es) && q.Bounded()
    ensures Answer(es, q) == if q.NoPredicate() then [] else Select(es, q)
  {
    hide Answer, HitEach, Hit, Select, Query.Accepts, Query.NoPredicate, Increasing;
    assert Orderly(es);
    AnswersExactly(es);
    assert Right(es, q);
    if q.NoPredicate() {
      NothingAsked(es, q);
    } else {
      forall s
        ensures s in Answer(es, q) <==> Hit(es, q, s)
      {
        HitEachIsHit(es, q, s);
      }
      IsSelect(es, q, Answer(es, q));
    }
  }

  lemma NothingAsked(es: seq<Event>, q: Query)
    requires q.NoPredicate()
    ensures Answer(es, q) == []
  {
    hide Posted, Sorted, Meet;
  }

  /** An event of an entity that arrives after a later one is lost to a query on entity and time. */
  lemma LateArrivalLost(entity: EntityId, schema: int, early: Timestamp, late: Timestamp, s: int, t: int)
    requires early != late && t < s
    ensures var es := [Event(s, entity, schema, early, None), Event(t, entity, schema, late, None)];
            var q := ByEntity(entity).(time := At(late).time);
            Hit(es, q, t) && t !in Answer(es, q)
  {
    var first, second := Event(s, entity, schema, early, None), Event(t, entity, schema, late, None);
    var es := [first, second];
    var q := ByEntity(entity).(time := At(late).time);
    assert es[1] == second && q.Accepts(second);
    assert es[..1] == [first] && [first][..0] == [];
    assert Posted([first], ByEntity(entity)) == [s];
    assert Posted(es, ByEntity(entity)) == [s, t];
    assert Sorted([first], At(late)) == [];
    assert Sorted(es, At(late)) == [t];
    assert Meet([s, t], [t]) == Meet([s, t], []) == [];
  }

  // ----- The index

  /** The list under a key, empty when the key is absent. */
  function Get<K>(entries: map<K, seq<int>>, k: K): seq<int> {
    if k in entries then entries[k] else []
  }

  /** Appends to a key's list, except for a repetition of its last element. */
  function Put<K>(entries: map<K, seq<int>>, k: K, s: int): map<K, seq<int>> {
    var list := Get(entries, k);
    if EndsWith(list, s) then entries else entries[k := list + [s]]
  }

  ghost predicate EntitiesAgree(entries: map<EntityId, seq<int>>, es: seq<Event>) {
    forall k :: Get(entries, k) == Posted(es, ByEntity(k))
  }

  ghost predicate SchemasAgree(entries: map<int, seq<int>>, es: seq<Event>) {
    forall k :: Get(entries, k) == Posted(es, BySchema(k))
  }

  ghost predicate TimesAgree(entries: map<Timestamp, seq<int>>, es: seq<Event>) {
    forall k :: Get(entries, k) == Posted(es, At(k))
  }

  ghost predicate CodesAgree(entries: map<int, seq<int>>, es: seq<Event>) {
    forall k :: Get(entries, k) == Posted(es, OfChunk(k))
  }

  function At(t: Timestamp): Query {
    ByTime(Span(t.clock, t.ticks, t.ticks))
  }

  function OfChunk(code: int): Query {
    ByCode([Interval(code, code)])
  }

  lemma PostedSnoc(es: seq<Event>, e: Event, q: Query)
    ensures var list := Posted(es, q);
            Posted(es + [e], q) == if q.Accepts(e) && !EndsWith(list, e.sequence) then list + [e.sequence] else list
  {
    assert (es + [e])[..|es|] == es;
  }

  lemma PutEntity(entries: map<EntityId, seq<int>>, es: seq<Event>, e: Event)
    requires EntitiesAgree(entries, es)
    ensures EntitiesAgree(Put(entries, e.entity, e.sequence), es + [e])
  {
    hide Posted;
    forall k
      ensures Get(Put(entries, e.entity, e.sequence), k) == Posted(es + [e], ByEntity(k))
    {
      PostedSnoc(es, e, ByEntity(k));
    }
  }

  lemma PutSchema(entries: map<int, seq<int>>, es: seq<Event>, e: Event)
    requires SchemasAgree(entries, es)
    ensures SchemasAgree(Put(entries, e.schema, e.sequence), es + [e])
  {
    hide Posted;
    forall k
      ensures Get(Put(entries, e.schema, e.sequence), k) == Posted(es + [e], BySchema(k))
    {
      PostedSnoc(es, e, BySchema(k));
    }
  }

  lemma PutTime(entries: map<Timestamp, seq<int>>, es: seq<Event>, e: Event)
    requires TimesAgree(entries, es)
    ensures TimesAgree(Put(entries, e.valid, e.sequence), es + [e])
  {
    hide Posted;
    forall k
      ensures Get(Put(entries, e.valid, e.sequence), k) == Posted(es + [e], At(k))
    {
      PostedSnoc(es, e, At(k));
    }
  }

  lemma PutCode(entries: map<int, seq<int>>, es: seq<Event>, e: Event)
    requires CodesAgree(entries, es)
    ensures CodesAgree(if e.code.Some? then Put(entries, e.code.value, e.sequence) else entries, es + [e])
  {
    hide Posted, Covered;
    var after := if e.code.Some? then Put(entries, e.code.value, e.sequence) else entries;
    forall k
      ensures Get(after, k) == Posted(es + [e], OfChunk(k))
    {
      PostedSnoc(es, e, OfChunk(k));
      OnlyItself(k);
      assert OfChunk(k).Accepts(e) <==> e.code == Some(k);
    }
  }

  /** The lists of every key that passes the test. */
  ghost predicate Gathered<K>(results: seq<int>, entries: map<K, seq<int>>, keys: set<K>) {
    forall s :: s in results <==> exists k :: k in keys && k in entries && s in entries[k]
  }

  /** Concatenates the lists of the given keys, in no particular order. */
  method Gather<K(==)>(entries: map<K, seq<int>>, keys: set<K>) returns (results: seq<int>)
    requires keys <= entries.Keys
    ensures Gathered(results, entries, keys)
  {
    results := [];
    var todo := keys;
    while todo != {}
      invariant todo <= keys && Gathered(results, entries, keys - todo)
      decreases todo
    {
      var k :| k in todo;
      results := results + entries[k];
      todo := todo - {k};
      GatherOne(results[..|results| - |entries[k]|], entries, keys - todo - {k}, k);
      assert keys - todo == (keys - todo - {k}) + {k};
    }
    assert keys - {} == keys;
  }

  lemma GatherOne<K>(results: seq<int>, entries: map<K, seq<int>>, keys: set<K>, k: K)
    requires Gathered(results, entries, keys) && k in entries
    ensures Gathered(results + entries[k], entries, keys + {k})
  {
  }

  class ProjectionIndex {
    var entities: map<EntityId, seq<int>>
    var schemas: map<int, seq<int>>
    var temporal: map<Timestamp, seq<int>>
    var spatial: map<int, seq<int>>
    var total: nat
    ghost var events: seq<Event>

    ghost predicate Valid()
      reads this
    {
      && total == |events|
      && EntitiesAgree(entities, events) && SchemasAgree(schemas, events)
      && TimesAgree(temporal, events) && CodesAgree(spatial, events)
    }

    constructor ()
      ensures Valid() && events == []
    {
      entities, schemas, temporal, spatial, total, events := map[], map[], map[], map[], 0, [];
    }

    method IndexEvent(sequence: int, entity: EntityId, schema: int, valid: Timestamp,
                      coords: Option<(nat, nat)>, chunker: Option<Chunker>)
      requires Valid() && (chunker.Some? ==> chunker.value.Valid())
      modifies this
      ensures Valid()
      ensures events == old(events) + [Event(sequence, entity, schema, valid, CodeOf(coords, chunker))]
    {
      hide EntitiesAgree, SchemasAgree, TimesAgree, CodesAgree, Put;
      var e := Event(sequence, entity, schema, valid, CodeOf(coords, chunker));
      PutEntity(entities, events, e);
      PutSchema(schemas, events, e);
      PutTime(temporal, events, e);
      PutCode(spatial, events, e);
      entities := Put(entities, entity, sequence);
      schemas := Put(schemas, schema, sequence);
      temporal := Put(temporal, valid, sequence);
      if coords.Some? && chunker.Some? {
        spatial := Put(spatial, chunker.value.ChunkMorton(coords.value.0, coords.value.1), sequence);
      }
      total := total + 1;
      events := events + [e];
    }

    method SequencesInRange(span: Span) returns (r: seq<int>)
      requires Valid() && span.min <= span.max
      ensures r == Sorted(events, ByTime(span))
      ensures Increasing(r) && forall s :: s in r <==> Hit(events, ByTime(span), s)
      ensures InOrder(events) ==> r == Select(events, ByTime(span))
    {
      hide Select, Increasing, Sorted;
      var keys := set k | k in temporal && k.clock == span.clock && span.min <= k.ticks <= span.max;
      var gathered := Gather(temporal, keys);
      r := SortDedup(gathered);
      forall s
        ensures s in r <==> Hit(events, ByTime(span), s)
      {
        TimeHits(temporal, events, span, keys, s);
      }
      IsSorted(events, ByTime(span), r);
    }

    method SequencesInIntervals(intervals: seq<Interval>) returns (r: seq<int>)
      requires Valid() && Ordered(intervals)
      ensures r == Sorted(events, ByCode(intervals))
      ensures Increasing(r) && forall s :: s in r <==> Hit(events, ByCode(intervals), s)
      ensures InOrder(events) ==> r == Select(events, ByCode(intervals))
    {
      hide Select, Increasing, Sorted;
      var gathered := GatherIntervals(spatial, intervals);
      r := SortDedup(gathered);
      forall s
        ensures s in r <==> Hit(events, ByCode(intervals), s)
      {
        CodeHits(spatial, events, intervals, s);
      }
      IsSorted(events, ByCode(intervals), r);
    }

    /** A box query: the intervals of the box, then the events whose chunk they select. */
    method SequencesInBox(box: Box, chunker: Chunker) returns (r: seq<int>, ghost intervals: seq<Interval>)
      requires Valid() && chunker.Valid() && box.InRange()
      ensures Increasing(r) && forall s :: s in r <==> HitBox(events, box, chunker, s)
      ensures Selects(intervals, box, chunker) && forall s :: s in r <==> Hit(events, ByCode(intervals), s)
      ensures InOrder(events) ==> r == Select(events, ByCode(intervals))
    {
      hide Select, Increasing, Sorted, Hit, HitBox, Selects;
      var found := IntervalsOfBox(box, chunker);
      r := SequencesInIntervals(found);
      intervals := found;
      forall s
        ensures Hit(events, ByCode(found), s) <==> HitBox(events, box, chunker, s)
      {
        BoxHits(events, box, chunker, found, s);
      }
    }

    /** The merged posting lists: right for every query when events of one entity, and of one schema, were indexed
        in sequence order, and then the linear filter's answer when sequences also do not repeat. */
    method QueryIntersect(q: Query) returns (r: seq<int>)
      requires Valid() && q.Bounded()
      ensures r == Answer(events, q)
      ensures Orderly(events) ==> Right(events, q)
      ensures InOrder(events) ==> r == if q.NoPredicate() then [] else Select(events, q)
    {
      hide Select, Get, Covered, Meet, Posted, Sorted, Increasing, Right, Orderly, InOrder;
      AnswersExactly(events);
      if InOrder(events) {
        AnswerIsFilter(events, q);
      }
      NothingMeets();
      var candidates: Option<seq<int>> := None;
      if q.entity.Some? {
        candidates := Some(Get(entities, q.entity.value));
        if candidates.value == [] {
          return [];
        }
      }
      if q.schema.Some? {
        var c := Narrow(candidates, Get(schemas, q.schema.value));
        candidates := Some(c);
        if c == [] {
          return [];
        }
      }
      if q.time.Some? {
        var seqs := SequencesInRange(q.time.value);
        var c := Narrow(candidates, seqs);
        candidates := Some(c);
        if c == [] {
          return [];
        }
      }
      if q.intervals.Some? {
        var seqs := SequencesInIntervals(q.intervals.value);
        var c := Narrow(candidates, seqs);
        candidates := Some(c);
      }
      r := if candidates.Some? then candidates.value else [];
    }
  }

  /** Some event of this sequence has the code of a chunk in the box's rectangle. */
  ghost predicate HitBox(es: seq<Event>, box: Box, chunker: Chunker, s: int)
    requires chunker.Valid()
  {
    exists i :: 0 <= i < |es| && es[i].sequence == s && es[i].code.Some? && BoxCode(es[i].code.value, box, chunker)
  }

  lemma BoxHits(es: seq<Event>, box: Box, chunker: Chunker, intervals: seq<Interval>, s: int)
    requires chunker.Valid() && forall c :: Covered(intervals, c) <==> BoxCode(c, box, chunker)
    ensures Hit(es, ByCode(intervals), s) <==> HitBox(es, box, chunker, s)
  {
    hide Covered, BoxCode;
  }

  lemma NothingMeets()
    ensures forall list :: Meet([], list) == []
  {
  }

  method Narrow(candidates: Option<seq<int>>, seqs: seq<int>) returns (r: seq<int>)
    ensures Some(r) == Narrowed(candidates, Some(seqs))
  {
    if candidates.None? {
      r := seqs;
    } else {
      r := IntersectSorted(candidates.value, seqs);
    }
  }

  method GatherIntervals(entries: map<int, seq<int>>, intervals: seq<Interval>) returns (results: seq<int>)
    ensures Gathered(results, entries, set k | k in entries && Covered(intervals, k))
  {
    hide Covered;
    results := [];
    NoneCovered();
    for i := 0 to |intervals|
      invariant Gathered(results, entries, set k | k in entries && Covered(intervals[..i], k))
    {
      var next := Gather(entries, set k | k in entries && intervals[i].Contains(k));
      assert intervals[..i + 1] == intervals[..i] + [intervals[i]];
      CoveredSnoc(intervals[..i], intervals[i]);
      results := results + next;
    }
    assert intervals[..|intervals|] == intervals;
  }

  lemma NoneCovered()
    ensures forall c :: !Covered([], c)
  {
  }

  lemma CodeHits(entries: map<int, seq<int>>, es: seq<Event>, intervals: seq<Interval>, s: int)
    requires CodesAgree(entries, es)
    ensures Hit(es, ByCode(intervals), s)
       <==> exists k :: k in (set k | k in entries && Covered(intervals, k)) && k in entries && s in entries[k]
  {
    hide Posted, Covered;
    var keys := set k | k in entries && Covered(intervals, k);
    if Hit(es, ByCode(intervals), s) {
      var i :| 0 <= i < |es| && es[i].sequence == s && ByCode(intervals).Accepts(es[i]);
      var k := es[i].code.value;
      PostedHits(es, OfChunk(k));
      OnlyItself(k);
      assert OfChunk(k).Accepts(es[i]);
      assert Hit(es, OfChunk(k), s);
      assert s in Get(entries, k);
      assert k in keys && k in entries && s in entries[k];
    }
    if k :| k in keys && k in entries && s in entries[k] {
      assert Get(entries, k) == Posted(es, OfChunk(k));
      PostedHits(es, OfChunk(k));
      OnlyItself(k);
      assert Hit(es, OfChunk(k), s);
      var i :| 0 <= i < |es| && es[i].sequence == s && OfChunk(k).Accepts(es[i]);
      assert ByCode(intervals).Accepts(es[i]);
    }
  }

  lemma OnlyItself(k: int)
    ensures forall c :: Covered([Interval(k, k)], c) <==> c == k
  {
    assert [Interval(k, k)][0].Contains(k);
  }

  function CodeOf(coords: Option<(nat, nat)>, chunker: Option<Chunker>): Option<int>
    requires chunker.Some? ==> chunker.value.Valid()
  {
    if coords.Some? && chunker.Some? then Some(chunker.value.ChunkMorton(coords.value.0, coords.value.1)) else None
  }

  lemma TimeHits(entries: map<Timestamp, seq<int>>, es: seq<Event>, span: Span, keys: set<Timestamp>, s: int)
    requires TimesAgree(entries, es)
    requires keys == set k | k in entries && k.clock == span.clock && span.min <= k.ticks <= span.max
    ensures Hit(es, ByTime(span), s) <==> exists k :: k in keys && k in entries && s in entries[k]
  {
    hide Posted;
    if Hit(es, ByTime(span), s) {
      var i :| 0 <= i < |es| && es[i].sequence == s && ByTime(span).Accepts(es[i]);
      var k := es[i].valid;
      PostedHits(es, At(k));
      assert At(k).Accepts(es[i]);
      assert Hit(es, At(k), s);
      assert s in Get(entries, k);
      assert k in keys && k in entries && s in entries[k];
    }
    if k :| k in keys && k in entries && s in entries[k] {
      assert Get(entries, k) == Posted(es, At(k));
      PostedHits(es, At(k));
      assert Hit(es, At(k), s);
      var i :| 0 <= i < |es| && es[i].sequence == s && At(k).Accepts(es[i]);
      assert ByTime(span).Accepts(es[i]);
    }
  }

  /** A box's intervals accept an event exactly when its chunk is in the box's rectangle, and so accept every
      event positioned inside the box. */
  lemma BoxExact(box: Box, chunker: Chunker, intervals: seq<Interval>, e: Event, x: nat, y: nat)
    requires chunker.Valid() && Selects(intervals, box, chunker) && x < Morton.SIDE && y < Morton.SIDE
    requires e.code == CodeOf(Some((x, y)), Some(chunker))
    ensures ByCode(intervals).Accepts(e) <==> InRectangle(box, chunker, x, y)
    ensures box.Contains(x, y) ==> ByCode(intervals).Accepts(e)
  {
    hide Covered;
    assert Covered(intervals, chunker.ChunkMorton(x, y)) <==> InRectangle(box, chunker, x, y);
    if box.Contains(x, y) {
      BoxInRectangle(box, chunker, x, y);
    }
  }

  /** What an answer holds, by the fields of the indexed events. */
  lemma AnswerHolds(es: seq<Event>, q: Query, s: int)
    requires Orderly(es) && q.Bounded()
    ensures s in Answer(es, q) <==>
            && (q.entity.Some? || q.schema.Some? || q.time.Some? || q.intervals.Some?)
            && (q.entity.Some? ==> exists i :: 0 <= i < |es| && es[i].sequence == s && es[i].entity == q.entity.value)
            && (q.schema.Some? ==> exists i :: 0 <= i < |es| && es[i].sequence == s && es[i].schema == q.schema.value)
            && (q.time.Some? ==>
                  exists i :: 0 <= i < |es| && es[i].sequence == s && es[i].valid.clock == q.time.value.clock
                              && q.time.value.min <= es[i].valid.ticks <= q.time.value.max)
            && (q.intervals.Some? ==>
                  exists i :: 0 <= i < |es| && es[i].sequence == s && es[i].code.Some?
                              && exists j :: 0 <= j < |q.intervals.value|
                                   && q.intervals.value[j].start <= es[i].code.value <= q.intervals.value[j].end)
  {
    hide Answer, Orderly, Query.Bounded, Hit;
    AnswersExactly(es);
    assert Right(es, q);
    if q.entity.Some? {
      EntityHit(es, q.entity.value, s);
    }
    if q.schema.Some? {
      SchemaHit(es, q.schema.value, s);
    }
    if q.time.Some? {
      TimeHit(es, q.time.value, s);
    }
    if q.intervals.Some? {
      CodeHit(es, q.intervals.value, s);
    }
  }

  lemma EntityHit(es: seq<Event>, entity: EntityId, s: int)
    ensures Hit(es, ByEntity(entity), s) <==>
            exists i :: 0 <= i < |es| && es[i].sequence == s && es[i].entity == entity
  {
  }

  lemma SchemaHit(es: seq<Event>, schema: int, s: int)
    ensures Hit(es, BySchema(schema), s) <==>
            exists i :: 0 <= i < |es| && es[i].sequence == s && es[i].schema == schema
  {
  }

  lemma TimeHit(es: seq<Event>, span: Span, s: int)
    ensures Hit(es, ByTime(span), s) <==>
            exists i :: 0 <= i < |es| && es[i].sequence == s && es[i].valid.clock == span.clock
                        && span.min <= es[i].valid.ticks <= span.max
  {
  }

  lemma CodeHit(es: seq<Event>, intervals: seq<Interval>, s: int)
    ensures Hit(es, ByCode(intervals), s) <==>
            exists i :: 0 <= i < |es| && es[i].sequence == s && es[i].code.Some?
                        && exists j :: 0 <= j < |intervals|
                             && intervals[j].start <= es[i].code.value <= intervals[j].end
  {
    forall i | 0 <= i < |es| && es[i].code.Some?
      ensures Covered(intervals, es[i].code.value) <==>
              exists j :: 0 <= j < |intervals| && intervals[j].start <= es[i].code.value <= intervals[j].end
    {
      CoveredMeans(intervals, es[i].code.value);
    }
  }

  lemma CoveredMeans(intervals: seq<Interval>, c: int)
    ensures Covered(intervals, c) <==>
            exists j :: 0 <= j < |intervals| && intervals[j].start <= c <= intervals[j].end
  {
    if j :| 0 <= j < |intervals| && intervals[j].start <= c <= intervals[j].end {
      assert intervals[j].Contains(c);
    }
  }
}
