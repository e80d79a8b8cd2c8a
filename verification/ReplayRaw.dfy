/** Replay with the raw reducer, whose checkpoints hold the encoded entity map. */
module ReplayRaw {
  import opened Core
  import opened Replay
  import EventLog
  import RawEntityMap

  type Stored = EventLog.Event<RawEntityMap.Raw>

  /** Keeps the latest schema and payload of every entity, and draws nothing. */
  function Reduce(state: RawEntityMap.RawMap, e: Stored, rng: Rng): Option<Point<RawEntityMap.RawMap>> {
    Some(Point(state[e.entity := e.change], rng))
  }

  /** Saves a rebuilt map as a checkpoint: later replays from it agree with replays from the start. */
  method Save(engine: ReplayEngine<seq<byte>>, events: seq<Stored>, k: nat, built: Rebuilt<RawEntityMap.RawMap>,
              ghost start: Point<RawEntityMap.RawMap>)
    requires k < |events| && Reference(Reduce, events, start, k + 1) == Ok(built)
    requires RawEntityMap.AllInRange(built.state) && |built.state| < U32
    requires AllFaithful(Reduce, events, start, RawEntityMap.Decode, engine.checkpoints)
    modifies engine`checkpoints
    ensures k in engine.checkpoints
    ensures AllFaithful(Reduce, events, start, RawEntityMap.Decode, engine.checkpoints)
  {
    var payload := RawEntityMap.EncodeRawEntityMap(built.state);
    SavedIsFaithful(Reduce, events, start, RawEntityMap.Decode, engine.checkpoints, k, built, payload);
    engine.checkpoints := engine.checkpoints[k := Checkpoint(built.header, payload)];
  }

  /** What the raw fold means: an entity maps to its last change, and is absent without one. */
  lemma {:induction false} LatestWins(events: seq<Stored>, start: Point<RawEntityMap.RawMap>, n: nat, e: EntityId)
    requires n <= |events|
    ensures Fold(Reduce, events, start, 0, n).Some?
    ensures var s := Fold(Reduce, events, start, 0, n).value.state;
            if exists i :: 0 <= i < n && events[i].entity == e
            then exists i :: 0 <= i < n && events[i].entity == e && (forall j :: i < j < n ==> events[j].entity != e)
                             && e in s && s[e] == events[i].change
            else (e in s <==> e in start.state) && (e in s ==> s[e] == start.state[e])
    ensures Fold(Reduce, events, start, 0, n).value.rng == start.rng
  {
    if n > 0 {
      LatestWins(events, start, n - 1, e);
      if events[n - 1].entity == e {
        assert 0 <= n - 1 < n && events[n - 1].entity == e;
      } else if exists i :: 0 <= i < n - 1 && events[i].entity == e {
        var i :| 0 <= i < n - 1 && events[i].entity == e && (forall j :: i < j < n - 1 ==> events[j].entity != e)
          && e in Fold(Reduce, events, start, 0, n - 1).value.state
          && Fold(Reduce, events, start, 0, n - 1).value.state[e] == events[i].change;
        assert forall j :: i < j < n ==> events[j].entity != e;
      }
    }
  }
}
