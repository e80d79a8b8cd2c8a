/** The store's pages: frames of events are read whole, under an event and a byte budget. */
module Frames {
  import opened Core

  /** A stored frame or segment: how many events and bytes it holds, and whether its summary rules out a match. */
  datatype Frame = Frame(count: nat, bytes: nat, skipped: bool)

  function Events(frames: seq<Frame>): nat {
    if frames == [] then 0 else frames[0].count + Events(frames[1..])
  }

  /** Events and bytes of the frames that are read. */
  function ReadEvents(frames: seq<Frame>): nat {
    if frames == [] then 0 else (if frames[0].skipped then 0 else frames[0].count) + ReadEvents(frames[1..])
  }

  function ReadBytes(frames: seq<Frame>): nat {
    if frames == [] then 0 else (if frames[0].skipped then 0 else frames[0].bytes) + ReadBytes(frames[1..])
  }

  predicate Fits(frames: seq<Frame>, scanned: nat, bytes: nat) {
    ReadEvents(frames) <= scanned && ReadBytes(frames) <= bytes
  }

  /** The first sequence that the budgets do not let through: frames are read whole, or not at all. */
  function Reach(frames: seq<Frame>, scanned: nat, bytes: nat): (r: nat)
    ensures r <= Events(frames)
  {
    if frames == [] then 0
    else if frames[0].skipped then frames[0].count + Reach(frames[1..], scanned, bytes)
    else if frames[0].bytes > bytes || frames[0].count > scanned then 0
    else frames[0].count + Reach(frames[1..], scanned - frames[0].count, bytes - frames[0].bytes)
  }

  /** Every frame holds an event, and bytes at least for its header. */
  ghost predicate NoEmptyFrame(frames: seq<Frame>) {
    forall i :: 0 <= i < |frames| ==> frames[i].count > 0 && frames[i].bytes > 0
  }

  /** The frame that holds the event at a position. */
  function Holding(frames: seq<Frame>, at: nat): (r: nat)
    requires at < Events(frames)
    ensures r < |frames|
  {
    if at < frames[0].count then 0 else 1 + Holding(frames[1..], at - frames[0].count)
  }

  /** The reach of a page that starts at a position: the frame that holds it is charged in full. */
  function ReachFrom(frames: seq<Frame>, at: nat, scanned: nat, bytes: nat): (r: nat)
    requires at < Events(frames)
    ensures r <= Events(frames)
  {
    if at < frames[0].count then Reach(frames, scanned, bytes)
    else frames[0].count + ReachFrom(frames[1..], at - frames[0].count, scanned, bytes)
  }

  /** A position is within reach exactly when the frames up to the one that holds it fit both budgets. */
  lemma {:induction false} ReachesExactly(frames: seq<Frame>, target: nat, scanned: nat, bytes: nat)
    requires target < Events(frames)
    ensures target < Reach(frames, scanned, bytes) <==> Fits(frames[..Holding(frames, target) + 1], scanned, bytes)
  {
    var f, rest, j := frames[0], frames[1..], Holding(frames, target);
    Prefix(frames, j);
    if target < f.count {
      Alone(f);
      assert frames[..1] == [f];
    } else {
      var s := if f.skipped then scanned else scanned - f.count;
      var b := if f.skipped then bytes else bytes - f.bytes;
      if s >= 0 && b >= 0 {
        ReachesExactly(rest, target - f.count, s, b);
      }
    }
  }

  lemma Alone(f: Frame)
    ensures ReadEvents([f]) == if f.skipped then 0 else f.count
    ensures ReadBytes([f]) == if f.skipped then 0 else f.bytes
  {
    assert [f][1..] == [];
  }

  lemma Prefix(frames: seq<Frame>, j: nat)
    requires j < |frames|
    ensures var p := frames[..j + 1]; p[0] == frames[0] && p[1..] == frames[1..][..j]
  {
  }

  /** From a position on: exactly when the frames from the one that holds it to the one that holds the target fit. */
  lemma {:induction false} ReachesFromExactly(frames: seq<Frame>, at: nat, target: nat, scanned: nat, bytes: nat)
    requires at <= target < Events(frames)
    ensures Holding(frames, at) <= Holding(frames, target)
    ensures target < ReachFrom(frames, at, scanned, bytes) <==>
            Fits(frames[Holding(frames, at)..Holding(frames, target) + 1], scanned, bytes)
  {
    hide Fits, Reach;
    var f, rest := frames[0], frames[1..];
    if at < f.count {
      ReachesExactly(frames, target, scanned, bytes);
      assert frames[0..Holding(frames, target) + 1] == frames[..Holding(frames, target) + 1];
    } else {
      ReachesFromExactly(rest, at - f.count, target - f.count, scanned, bytes);
      var i, j := Holding(rest, at - f.count), Holding(rest, target - f.count);
      assert rest[i..j + 1] == frames[i + 1..j + 2];
    }
  }

  /** The page reaches the end of the frames exactly when the frames it reads fit both budgets. */
  lemma {:induction false} ReachesEndExactly(frames: seq<Frame>, scanned: nat, bytes: nat)
    requires NoEmptyFrame(frames)
    ensures Reach(frames, scanned, bytes) == Events(frames) <==> Fits(frames, scanned, bytes)
  {
    if frames != [] {
      var f, rest := frames[0], frames[1..];
      if f.skipped {
        ReachesEndExactly(rest, scanned, bytes);
      } else if f.bytes <= bytes && f.count <= scanned {
        ReachesEndExactly(rest, scanned - f.count, bytes - f.bytes);
      }
    }
  }

  // ----- Reading a page

  /** The first `n` accepted events. */
  function Matching<T>(events: seq<T>, accepts: T -> bool, n: nat): (r: seq<T>)
    ensures |r| <= n
  {
    if events == [] || n == 0 then []
    else if accepts(events[0]) then [events[0]] + Matching(events[1..], accepts, n - 1)
    else Matching(events[1..], accepts, n)
  }

  lemma {:induction false} MatchingSplits<T>(a: seq<T>, b: seq<T>, accepts: T -> bool, n: nat)
    ensures var first := Matching(a, accepts, n);
            Matching(a + b, accepts, n) == first + Matching(b, accepts, n - |first|)
  {
    if a == [] {
      assert a + b == b;
    } else if n > 0 {
      assert (a + b)[1..] == a[1..] + b;
      MatchingSplits(a[1..], b, accepts, if accepts(a[0]) then n - 1 else n);
    }
  }

  lemma {:induction false} NoneMatching<T>(events: seq<T>, accepts: T -> bool, n: nat)
    requires forall e :: e in events ==> !accepts(e)
    ensures Matching(events, accepts, n) == []
  {
    if events != [] {
      assert events[0] in events;
      NoneMatching(events[1..], accepts, n);
    }
  }

  lemma {:induction false} AllMatching<T>(events: seq<T>, accepts: T -> bool, n: nat)
    requires forall e :: e in events ==> accepts(e)
    ensures Matching(events, accepts, n) == events[..Min(|events|, n)]
  {
    if events != [] && n > 0 {
      assert events[0] in events;
      AllMatching(events[1..], accepts, n - 1);
    }
  }

  /** The events from position `lo` up to `hi` join the page, until it is full. */
  lemma Grows<T>(events: seq<T>, accepts: T -> bool, n: nat, first: nat, lo: nat, hi: nat)
    requires first <= lo <= hi <= |events|
    ensures var page := Matching(events[first..lo], accepts, n);
            Matching(events[first..hi], accepts, n) == page + Matching(events[lo..hi], accepts, n - |page|)
  {
    assert events[first..hi] == events[first..lo] + events[lo..hi];
    MatchingSplits(events[first..lo], events[lo..hi], accepts, n);
  }

  /** Skipping a frame loses nothing: none of its events, the first of which is at `base`, is accepted. */
  ghost predicate SkipsSafely<T>(events: seq<T>, frames: seq<Frame>, accepts: T -> bool, base: nat)
    requires base + Events(frames) == |events|
  {
    frames == [] ||
    (&& (frames[0].skipped ==> forall e :: e in events[base..base + frames[0].count] ==> !accepts(e))
     && SkipsSafely(events, frames[1..], accepts, base + frames[0].count))
  }

  /** The first frame that is not skipped. */
  function FirstRead(frames: seq<Frame>): Option<Frame> {
    if frames == [] then None
    else if frames[0].skipped then FirstRead(frames[1..])
    else Some(frames[0])
  }

  predicate TooLarge(f: Option<Frame>, scanned: nat, bytes: nat) {
    f.Some? && (f.value.bytes > bytes || f.value.count > scanned)
  }

  /** A full page stays as it is. */
  lemma Filled<T>(events: seq<T>, accepts: T -> bool, n: nat, first: nat, end: nat, reach: nat)
    requires first <= end <= reach <= |events| && |Matching(events[first..end], accepts, n)| == n
    ensures Matching(events[first..reach], accepts, n) == Matching(events[first..end], accepts, n)
  {
    Grows(events, accepts, n, first, end, reach);
  }

  /** One frame's records from position `next` on. */
  method ReadRecords<T>(events: seq<T>, accepts: T -> bool, next: nat, end: nat, page: seq<T>, results: nat)
    returns (longer: seq<T>)
    requires next <= end <= |events| && |page| < results
    ensures longer == page + Matching(events[next..end], accepts, results - |page|)
  {
    hide Matching;
    longer := page;
    ghost var room := results - |page|;
    assert events[next..next] == [];
    NoneMatching(events[next..next], accepts, room);
    for i := next to end
      invariant longer == page + Matching(events[next..i], accepts, room) && |longer| < results
    {
      OneMore(events, accepts, room, next, i);
      if accepts(events[i]) {
        longer := longer + [events[i]];
        if |longer| == results {
          Filled(events, accepts, room, next, i + 1, end);
          return;
        }
      }
    }
  }

  lemma OneMore<T>(events: seq<T>, accepts: T -> bool, n: nat, first: nat, i: nat)
    requires first <= i < |events| && |Matching(events[first..i], accepts, n)| < n
    ensures Matching(events[first..i + 1], accepts, n) ==
            Matching(events[first..i], accepts, n) + if accepts(events[i]) then [events[i]] else []
  {
    Grows(events, accepts, n, first, i, i + 1);
    assert events[i..i + 1] == [events[i]] && [events[i]][1..] == [];
  }

  /** Where the page starts: the frame that holds the first position, and its own first position. */
  method Locate(frames: seq<Frame>, at: nat) returns (j: nat, base: nat)
    requires at < Events(frames)
    ensures j == Holding(frames, at) && base == Events(frames[..j])
    ensures base + Events(frames[j..]) == Events(frames) && base <= at < base + frames[j].count
    ensures forall s: nat, b: nat :: ReachFrom(frames, at, s, b) == base + Reach(frames[j..], s, b)
  {
    j, base := 0, 0;
    assert frames[0..] == frames;
    while base + frames[j].count <= at
      invariant j < |frames| && base <= at && base == Events(frames[..j])
      invariant base + Events(frames[j..]) == Events(frames) && at - base < Events(frames[j..])
      invariant j + Holding(frames[j..], at - base) == Holding(frames, at)
      invariant forall s: nat, b: nat ::
                  ReachFrom(frames, at, s, b) == base + ReachFrom(frames[j..], at - base, s, b)
      decreases |frames| - j
    {
      assert frames[j..][1..] == frames[j + 1..];
      EventsSnoc(frames, j);
      base, j := base + frames[j].count, j + 1;
    }
  }

  lemma {:induction false} EventsSnoc(frames: seq<Frame>, j: nat)
    requires j < |frames|
    ensures Events(frames[..j + 1]) == Events(frames[..j]) + frames[j].count
    decreases j
  {
    Prefix(frames, j);
    if j > 0 {
      Prefix(frames, j - 1);
      EventsSnoc(frames[1..], j - 1);
    } else {
      assert frames[..1][1..] == [] && frames[..0] == [];
    }
  }

  lemma {:induction false} SafeFrom<T>(events: seq<T>, frames: seq<Frame>, accepts: T -> bool, base: nat, j: nat)
    requires base + Events(frames) == |events| && SkipsSafely(events, frames, accepts, base) && j <= |frames|
    ensures base + Events(frames[..j]) + Events(frames[j..]) == |events|
    ensures SkipsSafely(events, frames[j..], accepts, base + Events(frames[..j]))
    decreases j
  {
    if j == 0 {
      assert frames[0..] == frames && frames[..0] == [];
    } else {
      Prefix(frames, j - 1);
      assert frames[j..] == frames[1..][j - 1..];
      SafeFrom(events, frames[1..], accepts, base + frames[0].count, j - 1);
    }
  }

  /** What the first frame contributes. */
  lemma OneFrame<T>(events: seq<T>, frames: seq<Frame>, accepts: T -> bool, base: nat, scanned: nat, bytes: nat)
    requires frames != [] && base + Events(frames) == |events| && SkipsSafely(events, frames, accepts, base)
    ensures var f, rest := frames[0], frames[1..]; var end := base + f.count;
            && end + Events(rest) == |events| && SkipsSafely(events, rest, accepts, end)
            && (f.skipped ==> forall e :: e in events[base..end] ==> !accepts(e))
            && FirstRead(frames) == (if f.skipped then FirstRead(rest) else Some(f))
            && Reach(frames, scanned, bytes) ==
               if f.skipped then f.count + Reach(rest, scanned, bytes)
               else if f.bytes > bytes || f.count > scanned then 0
               else f.count + Reach(rest, scanned - f.count, bytes - f.bytes)
  {
  }

  lemma NoFrame(scanned: nat, bytes: nat)
    ensures Events([]) == 0 && Reach([], scanned, bytes) == 0 && FirstRead([]).None?
  {
  }

  lemma SkipFrame<T>(events: seq<T>, accepts: T -> bool, n: nat, first: nat, next: nat, base: nat, end: nat)
    requires first <= next <= end <= |events| && base <= next
    requires forall e :: e in events[base..end] ==> !accepts(e)
    ensures Matching(events[first..end], accepts, n) == Matching(events[first..next], accepts, n)
  {
    var page := Matching(events[first..next], accepts, n);
    Grows(events, accepts, n, first, next, end);
    assert events[next..end] == events[base..end][next - base..];
    NoneMatching(events[next..end], accepts, n - |page|);
  }

  /** One page of history from position `first` on: the first accepted events within reach. The page is refused
      exactly when the first frame to be read breaks a budget by itself. */
  method ReadPage<T>(events: seq<T>, frames: seq<Frame>, accepts: T -> bool, first: nat, results: nat,
                     scanned: nat, bytes: nat)
    returns (r: Result<seq<T>, Frame>)
    requires first < |events| == Events(frames) && NoEmptyFrame(frames) && results > 0
    requires SkipsSafely(events, frames, accepts, 0)
    ensures var f := FirstRead(frames[Holding(frames, first)..]);
            r == if TooLarge(f, scanned, bytes) then Err(f.value)
                 else
                   var reach := Max(first, ReachFrom(frames, first, scanned, bytes));
                   Ok(Matching(events[first..reach], accepts, results))
  {
    hide SkipsSafely, Matching, Reach, ReachFrom, Events, FirstRead;
    var j, base := Locate(frames, first);
    ghost var start, reach := frames[j..], ReachFrom(frames, first, scanned, bytes);
    SafeFrom(events, frames, accepts, 0, j);
    var next, page, readEvents, readBytes := first, [], 0, 0;
    assert events[first..first] == [];
    NoneMatching(events[first..first], accepts, results);
    while next < |events|
      invariant j <= |frames| && 0 <= base && base + Events(frames[j..]) == |events|
      invariant SkipsSafely(events, frames[j..], accepts, base)
      invariant first <= next <= |events| && base <= next
      invariant j < |frames| ==> next < base + frames[j].count
      invariant j == |frames| ==> next == |events|
      invariant page == Matching(events[first..next], accepts, results) && |page| < results
      invariant 0 <= readEvents <= scanned && 0 <= readBytes <= bytes
      invariant reach == base + Reach(frames[j..], scanned - readEvents, bytes - readBytes)
      invariant readBytes == 0 ==> readEvents == 0 && FirstRead(start) == FirstRead(frames[j..])
      invariant readBytes > 0 ==> !TooLarge(FirstRead(start), scanned, bytes) && next == base
      decreases |frames| - j
    {
      var f, end := frames[j], base + frames[j].count;
      assert frames[j..][0] == f && frames[j..][1..] == frames[j + 1..];
      OneFrame(events, frames[j..], accepts, base, scanned - readEvents, bytes - readBytes);
      if f.skipped {
        SkipFrame(events, accepts, results, first, next, base, end);
      } else {
        if f.bytes > bytes || f.count > scanned {
          if readBytes != 0 {
            break;
          }
          return Err(f);
        }
        if f.bytes > bytes - readBytes || f.count > scanned - readEvents {
          break;
        }
        readEvents, readBytes := readEvents + f.count, readBytes + f.bytes;
        Grows(events, accepts, results, first, next, end);
        page := ReadRecords(events, accepts, next, end, page, results);
        if |page| == results {
          assert page == Matching(events[first..end], accepts, results);
          assert first <= end <= reach;
          Filled(events, accepts, results, first, end, reach);
          return Ok(page);
        }
      }
      next, base, j := end, end, j + 1;
      NoFrame(scanned - readEvents, bytes - readBytes);
    }
    if j < |frames| {
      OneFrame(events, frames[j..], accepts, base, scanned - readEvents, bytes - readBytes);
    } else {
      NoFrame(scanned - readEvents, bytes - readBytes);
      assert frames[j..] == [];
    }
    r := Ok(page);
  }

  /** The byte budget alone can end a page: of two frames of 40 MiB only the first is within 64 MiB. */
  lemma BytesEndPage(count: nat, scanned: nat)
    requires 0 < count && 2 * count <= scanned
    ensures var f := Frame(count, 40 * 1024 * 1024, false);
            && Events([f, f]) == 2 * count && ReachFrom([f, f], 0, scanned, 64 * 1024 * 1024) == count
            && ReachFrom([f, f], 0, scanned, 80 * 1024 * 1024) == 2 * count
  {
    var f := Frame(count, 40 * 1024 * 1024, false);
    assert [f, f][1..] == [f] && [f][1..] == [];
    assert Events([f]) == count;
    assert Reach([f], scanned - count, 24 * 1024 * 1024) == 0;
    assert Reach([f], scanned - count, 40 * 1024 * 1024) == count;
  }
}
