/** Identities, clocks and small wrappers shared by every component.
    Identifier and tick fields are integers here; the widths the system gives them are stated by
    the `InRange` predicates where a width matters (binary encodings). */
module Core {

  datatype Option<+T> = None | Some(value: T)

  datatype Result<+T, +E> = Ok(value: T) | Err(error: E)

  newtype byte = x: int | 0 <= x < 0x100

  const U16 := 0x1_0000
  const U32 := 0x1_0000_0000
  const U64 := 0x1_0000_0000_0000_0000

  /** Source-local event identity, ordered lexicographically by its fields. */
  datatype EventId = EventId(source: int, epoch: int, sequence: int) {
    predicate InRange() {
      0 <= source < U32 && 0 <= epoch < U64 && 0 <= sequence < U64
    }

    predicate Less(other: EventId) {
      || source < other.source
      || (source == other.source && epoch < other.epoch)
      || (source == other.source && epoch == other.epoch && sequence < other.sequence)
    }
  }

  /** Generation-safe entity identity, ordered lexicographically by its fields. */
  datatype EntityId = EntityId(shard: int, slot: int, generation: int) {
    predicate InRange() {
      0 <= shard < U32 && 0 <= slot < U32 && 0 <= generation < U32
    }

    predicate Less(other: EntityId) {
      || shard < other.shard
      || (shard == other.shard && slot < other.slot)
      || (shard == other.shard && slot == other.slot && generation < other.generation)
    }
  }

  /** A tick count that is only meaningful on its own clock. */
  datatype Timestamp = Timestamp(clock: int, ticks: int) {
    predicate InRange() {
      0 <= clock < U32 && 0 <= ticks < U64
    }
  }

  datatype TimeAxis = Valid | Observed | Known

  datatype EventTimes = EventTimes(valid: Timestamp, observed: Option<Timestamp>, known: Timestamp) {
    function On(axis: TimeAxis): Option<Timestamp> {
      match axis
      case Valid => Some(valid)
      case Observed => observed
      case Known => Some(known)
    }
  }

  /** Inclusive start, exclusive end, within one clock; built only with `start <= end`. */
  datatype TimeRange = TimeRange(clock: int, start: int, end: int) {
    predicate Contains(t: Timestamp) {
      t.clock == clock && start <= t.ticks < end
    }
  }

  /** Which records a history query asks for. */
  datatype HistoryFilter = HistoryFilter(
    entity: Option<EntityId>,
    time: Option<(TimeAxis, TimeRange)>,
    knownAsOf: Option<Timestamp>)
  {
    /** The test the history loops apply to one record. */
    predicate Accepts(e: EntityId, times: EventTimes) {
      && (entity.Some? ==> entity.value == e)
      && (knownAsOf.Some? ==> times.known.ticks <= knownAsOf.value.ticks)
      && (time.Some? ==>
            var on := times.On(time.value.0);
            on.Some? && time.value.1.Contains(on.value))
    }
  }

  function Min(a: nat, b: nat): nat {
    if a < b then a else b
  }

  function Max(a: nat, b: nat): nat {
    if a < b then b else a
  }

  function CeilDiv(a: nat, b: nat): nat
    requires b > 0
  {
    (a + b - 1) / b
  }

  /** Some element of a set, as an iteration over it yields one. */
  method Pick<T(==)>(s: set<T>) returns (x: T)
    requires s != {}
    ensures x in s
  {
    x :| x in s;
  }
}
