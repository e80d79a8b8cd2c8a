/** Deterministic replay: rebuilding state from the latest checkpoint and the events after it. */
module Replay {
  import opened Core
  import opened Bits
  import opened EventLog
  import opened Frames
  import opened Slices

  // ----- The generator

  /** SplitMix64: the seed, the current state and how many numbers were drawn. */
  datatype Rng = Rng(seed: nat, state: nat, steps: nat) {
    /** The generator after one draw. */
    function Advance(): Rng {
      Rng(seed, (state + 0x9E3779B97F4A7C15) % U64, steps + 1)
    }

    /** The number that draw yields. */
    function Draw(): nat {
      var z0 := (state + 0x9E3779B97F4A7C15) % U64;
      var z1 := Xor(z0, Shr(z0, 30)) * 0xBF58476D1CE4E5B9 % U64;
      var z2 := Xor(z1, Shr(z1, 27)) * 0x94D049BB133111EB % U64;
      Xor(z2, Shr(z2, 31))
    }
  }

  /** A new generator has drawn once and forgotten it. */
  function Fresh(seed: nat): Rng {
    Rng(seed, seed, 0).Advance().(steps := 0)
  }

  /** The next `n` numbers of a generator. */
  function Numbers(r: Rng, n: nat): seq<nat>
    decreases n
  {
    if n == 0 then [] else [r.Draw()] + Numbers(r.Advance(), n - 1)
  }

  class DeterministicRng {
    var seed: nat
    var state: nat
    var steps: nat

    ghost function Value(): Rng
      reads this
    {
      Rng(seed, state, steps)
    }

    constructor (seed: nat)
      ensures Value() == Fresh(seed)
      ensures this.seed == seed && state == (seed + 0x9E37_79B9_7F4A_7C15) % U64 && steps == 0
    {
      this.seed, this.state, this.steps := seed, (seed + 0x9E3779B97F4A7C15) % U64, 0;
    }

    method NextU64() returns (z: nat)
      modifies this
      ensures Value() == old(Value()).Advance() && z == old(Value()).Draw()
      ensures seed == old(seed) && state == (old(state) + 0x9E37_79B9_7F4A_7C15) % U64 && steps == old(steps) + 1
      ensures var a := Xor(state, Shr(state, 30)) * 0xBF58_476D_1CE4_E5B9 % U64;
              var b := Xor(a, Shr(a, 27)) * 0x94D0_49BB_1331_11EB % U64;
              z == Xor(b, Shr(b, 31))
    {
      state := (state + 0x9E3779B97F4A7C15) % U64;
      z := state;
      z := Xor(z, Shr(z, 30)) * 0xBF58476D1CE4E5B9 % U64;
      z := Xor(z, Shr(z, 27)) * 0x94D049BB133111EB % U64;
      steps := steps + 1;
      z := Xor(z, Shr(z, 31));
    }

    method Snapshot() returns (s: Rng)
      ensures s == Value()
    {
      s := Rng(seed, state, steps);
    }

    method Restore(s: Rng)
      modifies this
      ensures Value() == s
    {
      seed, state, steps := s.seed, s.state, s.steps;
    }

    /** Draws `n` numbers; what a generator yields depends on its value alone. */
    method DrawMany(n: nat) returns (zs: seq<nat>)
      modifies this
      ensures zs == Numbers(old(Value()), n)
      decreases n
    {
      hide Rng.Draw, Rng.Advance;
      if n == 0 {
        return [];
      }
      var z := NextU64();
      var rest := DrawMany(n - 1);
      zs := [z] + rest;
    }
  }

  /** A restored snapshot yields the numbers the generator would have yielded from there. */
  method SnapshotReplays(rng: DeterministicRng, n: nat) returns (first: seq<nat>, again: seq<nat>)
    modifies rng
    ensures first == again == Numbers(old(rng.Value()), n)
  {
    hide Numbers;
    var s := rng.Snapshot();
    first := rng.DrawMany(n);
    rng.Restore(s);
    again := rng.DrawMany(n);
  }

  // ----- Checkpoints and folds

  datatype ReplayError =
    | InvalidCursor
    | BudgetTooSmall(bytes: nat, records: nat)
    | DiscontinuousSequence
    | CorruptedCheckpoint
    | ReducerFailed

  datatype Header = Header(sequence: int, valid: Timestamp, known: Timestamp, rng: Rng)

  datatype Checkpoint<P> = Checkpoint(header: Header, payload: P)

  /** A state and the generator beside it. */
  datatype Point<S> = Point(state: S, rng: Rng)

  type Reducer<!S, !T> = (S, Event<T>, Rng) -> Option<Point<S>>

  /** Applying events `from` up to `end`, in order. */
  function Fold<S, T>(reduce: Reducer<S, T>, events: seq<Event<T>>, p: Point<S>, from: nat, end: nat): Option<Point<S>>
    requires from <= end <= |events|
    decreases end
  {
    if from == end then Some(p)
    else
      var before := Fold(reduce, events, p, from, end - 1);
      if before.None? then None else reduce(before.value.state, events[end - 1], before.value.rng)
  }

  lemma {:induction false} FoldSplits<S, T>(reduce: Reducer<S, T>, events: seq<Event<T>>, p: Point<S>, from: nat,
                                            mid: nat, end: nat)
    requires from <= mid <= end <= |events|
    ensures var m := Fold(reduce, events, p, from, mid);
            Fold(reduce, events, p, from, end) == if m.None? then None else Fold(reduce, events, m.value, mid, end)
    decreases end
  {
    if mid < end {
      FoldSplits(reduce, events, p, from, mid, end - 1);
    }
  }

  /** A checkpoint tells the truth about the log: it decodes to the state after its own event, and records that
      event's times and the generator's value. */
  ghost predicate Faithful<S, T, P>(reduce: Reducer<S, T>, events: seq<Event<T>>, start: Point<S>,
                                    decode: P -> Option<S>, c: Checkpoint<P>)
  {
    && 0 <= c.header.sequence < |events|
    && decode(c.payload).Some?
    && Fold(reduce, events, start, 0, c.header.sequence + 1) == Some(Point(decode(c.payload).value, c.header.rng))
    && c.header.valid == events[c.header.sequence].times.valid
    && c.header.known == events[c.header.sequence].times.known
  }

  ghost predicate AllFaithful<S, T, P>(reduce: Reducer<S, T>, events: seq<Event<T>>, start: Point<S>,
                                       decode: P -> Option<S>, checkpoints: map<int, Checkpoint<P>>)
  {
    forall s :: s in checkpoints ==>
      checkpoints[s].header.sequence == s && Faithful(reduce, events, start, decode, checkpoints[s])
  }

  /** The highest checkpoint not beyond `max`. */
  ghost predicate IsLatest<P>(checkpoints: map<int, Checkpoint<P>>, max: int, r: Option<int>) {
    && (r.Some? ==> r.value in checkpoints && r.value <= max)
    && (forall s :: s in checkpoints && s <= max ==> r.Some? && s <= r.value)
  }

  /** The directory scan; names come in any order. */
  method FindLatest<P>(checkpoints: map<int, Checkpoint<P>>, max: int) returns (r: Option<int>)
    ensures IsLatest(checkpoints, max, r)
  {
    r := None;
    var todo := checkpoints.Keys;
    while todo != {}
      invariant todo <= checkpoints.Keys
      invariant r.Some? ==> r.value in checkpoints && r.value <= max
      invariant forall s :: s in checkpoints && s !in todo && s <= max ==> r.Some? && s <= r.value
      decreases todo
    {
      var s := Pick(todo);
      todo := todo - {s};
      if s <= max && (r.None? || s > r.value) {
        r := Some(s);
      }
    }
  }

  // ----- How far one page of history reaches

  const MAX_SCANNED := 65_536
  const MAX_BYTES := 64 * 1024 * 1024

  /** The frames of a log; a filter without conditions skips none. */
  ghost predicate FramesOf(frames: seq<Frame>, n: nat) {
    Events(frames) == n && NoEmptyFrame(frames) && forall f :: f in frames ==> !f.skipped
  }

  /** There is something to read, and the frame that holds its first event breaks a budget by itself. */
  predicate Refused(frames: seq<Frame>, next: nat, target: nat)
    requires target < Events(frames)
  {
    next <= target && TooLarge(Some(frames[Holding(frames, next)]), MAX_SCANNED, MAX_BYTES)
  }

  /** The frames from the one that holds `next` to the one that holds `target` fit both budgets. */
  predicate PageFits(frames: seq<Frame>, next: nat, target: nat)
    requires next <= target < Events(frames)
  {
    ReachesFromExactly(frames, next, target, MAX_SCANNED, MAX_BYTES);
    Frames.Fits(frames[Holding(frames, next)..Holding(frames, target) + 1], MAX_SCANNED, MAX_BYTES)
  }

  /** The position after the last event on the page. */
  function Reached(frames: seq<Frame>, next: nat, target: nat): (r: nat)
    requires target < Events(frames) && !Refused(frames, next, target)
    ensures 0 < r <= target + 1
    ensures next <= target ==> next < r && (r == target + 1 <==> PageFits(frames, next, target))
  {
    if next > target then target + 1
    else
      FirstFrameRead(frames, next);
      ReachesFromExactly(frames, next, target, MAX_SCANNED, MAX_BYTES);
      Min(target + 1, ReachFrom(frames, next, MAX_SCANNED, MAX_BYTES))
  }

  lemma FirstFrameRead(frames: seq<Frame>, next: nat)
    requires next < Events(frames) && !TooLarge(Some(frames[Holding(frames, next)]), MAX_SCANNED, MAX_BYTES)
    ensures next < ReachFrom(frames, next, MAX_SCANNED, MAX_BYTES)
  {
    hide ReachFrom, Holding;
    var h := Holding(frames, next);
    ReachesFromExactly(frames, next, next, MAX_SCANNED, MAX_BYTES);
    assert frames[h..h + 1] == [frames[h]];
    Alone(frames[h]);
  }

  /** The 80,000 events of two full frames do not fit one page: a target in the second frame is not reached. */
  lemma SecondFrameOutOfReach(bytes: nat, target: nat)
    requires 0 < bytes <= MAX_BYTES / 2 && 40_000 <= target < 80_000
    ensures var frames := [Frame(40_000, bytes, false), Frame(40_000, bytes, false)];
            && FramesOf(frames, 80_000) && !Refused(frames, 0, target) && Reached(frames, 0, target) == 40_000
  {
    TwoFrames(40_000, 40_000, bytes, 0);
  }

  /** Two events after a checkpoint are too many when the first of them ends a large frame, which is charged in full. */
  lemma ShortSuffixOutOfReach(bytes: nat)
    requires 0 < bytes <= MAX_BYTES / 2
    ensures var frames := [Frame(40_000, bytes, false), Frame(26_000, bytes, false)];
            && FramesOf(frames, 66_000) && !Refused(frames, 39_999, 40_000)
            && Reached(frames, 39_999, 40_000) == 40_000
  {
    TwoFrames(40_000, 26_000, bytes, 39_999);
  }

  lemma TwoFrames(m: nat, n: nat, bytes: nat, at: nat)
    requires 0 < bytes <= MAX_BYTES / 2 && at < m <= MAX_SCANNED < m + n
    ensures var frames := [Frame(m, bytes, false), Frame(n, bytes, false)];
            && Events(frames) == m + n && Holding(frames, at) == 0
            && ReachFrom(frames, at, MAX_SCANNED, MAX_BYTES) == m
  {
    var f, g := Frame(m, bytes, false), Frame(n, bytes, false);
    assert [f, g][1..] == [g] && [g][1..] == [];
    assert Events([g]) == n;
    assert Reach([g], MAX_SCANNED - m, MAX_BYTES - bytes) == 0;
  }

  // ----- The engine

  datatype Rebuilt<S> = Rebuilt(state: S, header: Header)

  /** The fold over the first `end` events, as the engine reports it. */
  ghost function Reference<S, T>(reduce: Reducer<S, T>, events: seq<Event<T>>, start: Point<S>,
                                 end: nat): Result<Rebuilt<S>, ReplayError>
    requires 0 < end <= |events|
  {
    var p := Fold(reduce, events, start, 0, end);
    if p.None? then Err(ReducerFailed)
    else
      var e := events[end - 1];
      Ok(Rebuilt(p.value.state, Header(end - 1, e.times.valid, e.times.known, p.value.rng)))
  }

  ghost predicate Numbered<T>(events: seq<Event<T>>) {
    forall i :: 0 <= i < |events| ==> events[i].id.sequence == i
  }

  /** The position after the latest checkpoint. */
  ghost predicate IsNext<P>(checkpoints: map<int, Checkpoint<P>>, target: int, next: int) {
    && (next > 0 ==> next - 1 in checkpoints && next - 1 <= target)
    && (forall s :: s in checkpoints && s <= target ==> s < next)
  }

  /** Applies a page of events to a state; gives nothing once the reducer refuses one. */
  method ApplyPage<S, T>(reduce: Reducer<S, T>, ghost events: seq<Event<T>>, p: Point<S>, page: seq<Event<T>>,
                         target: int, next: nat, header: Header)
    returns (r: Result<Rebuilt<S>, ReplayError>)
    requires Numbered(events) && next + |page| <= |events| && page == events[next..next + |page|]
    requires next + |page| <= target + 1
    ensures var f := Fold(reduce, events, p, next, next + |page|);
            r == if f.None? then Err(ReducerFailed)
                 else if |page| == 0 then Ok(Rebuilt(p.state, header))
                 else var e := page[|page| - 1];
                      Ok(Rebuilt(f.value.state, Header(next + |page| - 1, e.times.valid, e.times.known, f.value.rng)))
  {
    var state, rng, at, last := p.state, p.rng, next, header;
    for i := 0 to |page|
      invariant at == next + i
      invariant Fold(reduce, events, p, next, at) == Some(Point(state, rng))
      invariant i == 0 ==> last == header && state == p.state
      invariant i > 0 ==> last == Header(at - 1, page[i - 1].times.valid, page[i - 1].times.known, rng)
    {
      var e := page[i];
      assert e == events[next + i] && e.id.sequence == at;
      if e.id.sequence > target {
        break;
      }
      if e.id.sequence != at {
        return Err(DiscontinuousSequence);
      }
      var q := reduce(state, e, rng);
      if q.None? {
        FoldSplits(reduce, events, p, next, at + 1, next + |page|);
        return Err(ReducerFailed);
      }
      state, rng := q.value.state, q.value.rng;
      last := Header(e.id.sequence, e.times.valid, e.times.known, rng);
      at := at + 1;
    }
    r := Ok(Rebuilt(state, last));
  }

  class ReplayEngine<P> {
    var checkpoints: map<int, Checkpoint<P>>
    var rng: Rng

    constructor (seed: nat, checkpoints: map<int, Checkpoint<P>>)
      ensures this.checkpoints == checkpoints && rng == Fresh(seed)
    {
      this.checkpoints, rng := checkpoints, Fresh(seed);
    }

    /** Restores the latest checkpoint up to the target, or starts from nothing with the generator as it is. */
    method Restore<S, T>(target: int, initial: S, decode: P -> Option<S>) returns (r: Option<Rebuilt<S>>, next: nat)
      requires forall s :: s in checkpoints ==> checkpoints[s].header.sequence == s >= 0
      modifies this`rng
      ensures IsNext(checkpoints, target, next)
      ensures next == 0 ==>
                r == Some(Rebuilt(initial, Header(0, Timestamp(0, 0), Timestamp(0, 0), rng))) && rng == old(rng)
      ensures next > 0 ==> var c := checkpoints[next - 1]; var s := decode(c.payload);
                           if s.None? then r == None else r == Some(Rebuilt(s.value, c.header)) && rng == c.header.rng
    {
      var latest := FindLatest(checkpoints, target);
      if latest.None? {
        return Some(Rebuilt(initial, Header(0, Timestamp(0, 0), Timestamp(0, 0), rng))), 0;
      }
      var c := checkpoints[latest.value];
      next := c.header.sequence + 1;
      var state := decode(c.payload);
      if state.None? {
        return None, next;
      }
      rng := c.header.rng;
      r := Some(Rebuilt(state.value, c.header));
    }

    /** Rebuilds the state at the target, as far as one page of history reaches. With a checkpoint up to the target
        the result is the fold from `start`, to which the checkpoints are faithful; without one it is the fold from
        the initial state with the generator as the engine has it now. */
    method ReconstructAtSequence<S, T>(events: seq<Event<T>>, frames: seq<Frame>, target: nat, reduce: Reducer<S, T>,
                                       decode: P -> Option<S>, initial: S, ghost start: Point<S>)
      returns (r: Result<Rebuilt<S>, ReplayError>, ghost next: nat)
      requires Numbered(events) && FramesOf(frames, |events|)
      requires AllFaithful(reduce, events, start, decode, checkpoints)
      modifies this`rng
      ensures target >= |events| ==> r == Err(ReplayError.InvalidCursor)
      ensures target < |events| ==>
                && IsNext(checkpoints, target, next) && next <= target + 1
                && r == if Refused(frames, next, target) then
                          Err(BudgetTooSmall(frames[Holding(frames, next)].bytes, frames[Holding(frames, next)].count))
                        else Reference(reduce, events, if next > 0 then start else Point(initial, old(rng)),
                                       Reached(frames, next, target))
      ensures r.Ok? ==> rng == r.value.header.rng
      ensures r.Ok? ==> (r.value.header.sequence == target <==> next > target || PageFits(frames, next, target))
    {
      hide Fold, AllFaithful, Numbered, FramesOf, Refused, Holding, PageFits;
      next := 0;
      if target >= |events| {
        return Err(ReplayError.InvalidCursor), 0;
      }
      assert forall s :: s in checkpoints ==> checkpoints[s].header.sequence == s >= 0 by {
        FaithfulKeys(reduce, events, start, decode, checkpoints);
      }
      var from, first := Restore<S, T>(target, initial, decode);
      next := first;
      if first > 0 {
        FaithfulAt(reduce, events, start, decode, checkpoints, first - 1);
      }
      if from.None? {
        r := Err(CorruptedCheckpoint);
        return;
      }
      var p := Point(from.value.state, rng);
      ghost var origin := if first > 0 then start else p;
      if first == 0 {
        FoldNone(reduce, events, origin, 0);
      }
      FramesCount(frames, |events|);
      r := ReplaySuffix(events, frames, target, reduce, p, first, from.value.header, origin);
      if r.Ok? {
        rng := r.value.header.rng;
      }
    }
  }

  lemma FramesCount(frames: seq<Frame>, n: nat)
    requires FramesOf(frames, n)
    ensures Events(frames) == n
  {
  }

  /** From the state before event `first` on, one page of history. */
  method ReplaySuffix<S, T>(events: seq<Event<T>>, frames: seq<Frame>, target: nat, reduce: Reducer<S, T>,
                            p: Point<S>, first: nat, header: Header, ghost start: Point<S>)
    returns (r: Result<Rebuilt<S>, ReplayError>)
    requires Numbered(events) && FramesOf(frames, |events|) && Events(frames) == |events|
    requires target < |events| && first <= target + 1 && Fold(reduce, events, start, 0, first) == Some(p)
    requires first > 0 ==> var e := events[first - 1]; header == Header(first - 1, e.times.valid, e.times.known, p.rng)
    ensures r == if Refused(frames, first, target) then
                   Err(BudgetTooSmall(frames[Holding(frames, first)].bytes, frames[Holding(frames, first)].count))
                 else Reference(reduce, events, start, Reached(frames, first, target))
  {
    hide Fold, Numbered, FramesOf, Refused, Holding, PageFits, Reached;
    var page: seq<Event<T>> := [];
    if first <= target {
      var read := HistoryPage(events, frames, first, target);
      if read.Err? {
        return Err(read.error);
      }
      page := read.value;
    } else {
      NothingToRead(frames, first, target);
    }
    Continues(reduce, events, start, p, first, first + |page|);
    FoldNone(reduce, events, p, first);
    r := ApplyPage(reduce, events, p, page, target, first, header);
  }

  lemma NothingToRead(frames: seq<Frame>, next: nat, target: nat)
    requires target < Events(frames) && next > target
    ensures !Refused(frames, next, target) && Reached(frames, next, target) == target + 1
  {
  }

  /** The page without a filter: the events up to the target, as far as the budgets reach. */
  method HistoryPage<T>(events: seq<Event<T>>, frames: seq<Frame>, first: nat, target: nat)
    returns (r: Result<seq<Event<T>>, ReplayError>)
    requires first <= target < |events| == Events(frames) && FramesOf(frames, |events|)
    ensures r == if Refused(frames, first, target) then
                   Err(BudgetTooSmall(frames[Holding(frames, first)].bytes, frames[Holding(frames, first)].count))
                 else Ok(events[first..Reached(frames, first, target)])
  {
    hide ReachFrom, Holding, SkipsSafely, FirstRead, Matching;
    var all: Event<T> -> bool := e => true;
    NothingSkipped(events, frames, all, 0);
    FirstIsRead(frames, Holding(frames, first));
    var page := ReadPage(events, frames, all, first, target - first + 1, MAX_SCANNED, MAX_BYTES);
    if page.Err? {
      return Err(BudgetTooSmall(page.error.bytes, page.error.count));
    }
    FirstFrameRead(frames, first);
    ghost var reach := ReachFrom(frames, first, MAX_SCANNED, MAX_BYTES);
    FirstOf(events, first, reach, all, target - first + 1);
    r := Ok(page.value);
  }

  /** When everything is accepted, the first events from a position on. */
  lemma FirstOf<T>(events: seq<T>, first: nat, reach: nat, all: T -> bool, n: nat)
    requires first <= reach <= |events| && forall e :: all(e)
    ensures Matching(events[first..reach], all, n) == events[first..Min(first + n, reach)]
  {
    hide Matching;
    AllMatching(events[first..reach], all, n);
    SubSlice(events, first, reach, 0, Min(reach - first, n));
    assert events[first..reach][..Min(reach - first, n)] == events[first..reach][0..Min(reach - first, n)];
  }

  lemma {:induction false} NothingSkipped<T>(events: seq<T>, frames: seq<Frame>, accepts: T -> bool, base: nat)
    requires base + Events(frames) == |events| && forall f :: f in frames ==> !f.skipped
    ensures SkipsSafely(events, frames, accepts, base)
  {
    if frames != [] {
      assert frames[0] in frames;
      NothingSkipped(events, frames[1..], accepts, base + frames[0].count);
    }
  }

  lemma FirstIsRead(frames: seq<Frame>, j: nat)
    requires j < |frames| && forall f :: f in frames ==> !f.skipped
    ensures FirstRead(frames[j..]) == Some(frames[j])
  {
    assert frames[j] in frames;
  }

  lemma FoldNone<S, T>(reduce: Reducer<S, T>, events: seq<Event<T>>, p: Point<S>, at: nat)
    requires at <= |events|
    ensures Fold(reduce, events, p, at, at) == Some(p)
  {
  }

  lemma FaithfulKeys<S, T, P>(reduce: Reducer<S, T>, events: seq<Event<T>>, start: Point<S>,
                              decode: P -> Option<S>, checkpoints: map<int, Checkpoint<P>>)
    requires AllFaithful(reduce, events, start, decode, checkpoints)
    ensures forall s :: s in checkpoints ==> checkpoints[s].header.sequence == s >= 0
  {
  }

  lemma FaithfulAt<S, T, P>(reduce: Reducer<S, T>, events: seq<Event<T>>, start: Point<S>,
                            decode: P -> Option<S>, checkpoints: map<int, Checkpoint<P>>, s: nat)
    requires AllFaithful(reduce, events, start, decode, checkpoints) && s in checkpoints
    ensures Faithful(reduce, events, start, decode, checkpoints[s]) && checkpoints[s].header.sequence == s
  {
  }

  lemma Continues<S, T>(reduce: Reducer<S, T>, events: seq<Event<T>>, start: Point<S>, p: Point<S>, from: nat, end: nat)
    requires from <= end <= |events| && Fold(reduce, events, start, 0, from) == Some(p)
    ensures Fold(reduce, events, start, 0, end) == Fold(reduce, events, p, from, end)
  {
    FoldSplits(reduce, events, start, 0, from, end);
  }

  // ----- Checkpoints made from what was rebuilt

  /** Saving a rebuilt state keeps the set of checkpoints faithful. */
  lemma SavedIsFaithful<S, T, P>(reduce: Reducer<S, T>, events: seq<Event<T>>, start: Point<S>, decode: P -> Option<S>,
                                 checkpoints: map<int, Checkpoint<P>>, k: nat, built: Rebuilt<S>, payload: P)
    requires AllFaithful(reduce, events, start, decode, checkpoints)
    requires k < |events| && Reference(reduce, events, start, k + 1) == Ok(built)
             && decode(payload) == Some(built.state)
    ensures AllFaithful(reduce, events, start, decode, checkpoints[k := Checkpoint(built.header, payload)])
  {
  }

  /** An engine that has already replayed without a checkpoint does not start over: its generator has moved on. */
  method ReusedEngineDiffers(seed: nat) returns (first: Rebuilt<nat>, again: Rebuilt<nat>)
    ensures first.header.sequence == again.header.sequence && first.header.rng != again.header.rng
  {
    var e := Event(EventId(0, 0, 0), EntityId(0, 0, 0), EventTimes(Timestamp(0, 0), None, Timestamp(0, 0)), 0);
    var draws: Reducer<nat, int> := (s: nat, e: Event<int>, r: Rng) => Some(Point(s + 1, r.Advance()));
    var decode: int -> Option<nat> := n => None;
    var engine := new ReplayEngine<int>(seed, map[]);
    ghost var start := Point(0, engine.rng);
    var frames := [Frame(1, 1, false)];
    assert frames[1..] == [] && Holding(frames, 0) == 0;
    var one, n1 := engine.ReconstructAtSequence([e], frames, 0, draws, decode, 0, start);
    FoldOne(draws, e, start);
    ghost var later := Point(0, engine.rng);
    var two, n2 := engine.ReconstructAtSequence([e], frames, 0, draws, decode, 0, start);
    FoldOne(draws, e, later);
    first, again := one.value, two.value;
  }

  lemma FoldOne<S, T>(reduce: Reducer<S, T>, e: Event<T>, p: Point<S>)
    ensures Fold(reduce, [e], p, 0, 1) == reduce(p.state, e, p.rng)
  {
    assert Fold(reduce, [e], p, 0, 0) == Some(p);
  }
}
