/** The compressed sparse row form of the causal graph. */
module CausalCsr {
  import opened Core
  import opened Digraph
  import opened CausalSpec

  datatype Csr = Csr(events: seq<EventId>, causeOffsets: seq<int>, causeIndices: seq<int>,
                     effectOffsets: seq<int>, effectIndices: seq<int>)

  /** The positions of the events of `row` that are in `index`, in order. */
  function Positions(index: map<EventId, int>, row: seq<EventId>): seq<int> {
    if row == [] then []
    else
      Positions(index, row[..|row| - 1])
      + if row[|row| - 1] in index then [index[row[|row| - 1]]] else []
  }

  ghost predicate Indexes(index: map<EventId, int>, events: seq<EventId>) {
    && (forall e :: e in index ==> 0 <= index[e] < |events| && events[index[e]] == e)
    && (forall i :: 0 <= i < |events| ==> events[i] in index && index[events[i]] == i)
  }

  /** The row of the `i`-th event lies between its offset and the next. */
  ghost predicate CutAt(index: map<EventId, int>, events: seq<EventId>, rows: Adj<EventId>,
                        offsets: seq<int>, indices: seq<int>, i: nat)
    requires i < |events| && i + 1 < |offsets|
  {
    && 0 <= offsets[i] <= offsets[i + 1] <= |indices|
    && indices[offsets[i]..offsets[i + 1]] == Positions(index, Out(rows, events[i]))
  }

  /** Offsets cut the index list into the rows of the first `n` events. */
  ghost predicate Cuts(index: map<EventId, int>, events: seq<EventId>, rows: Adj<EventId>,
                       offsets: seq<int>, indices: seq<int>, n: nat)
  {
    && n <= |events| && |offsets| == n + 1 && offsets[n] == |indices|
    && forall i :: 0 <= i < n ==> CutAt(index, events, rows, offsets, indices, i)
  }

  /** The events a list of positions stands for. */
  ghost function Names(events: seq<EventId>, at: seq<int>): seq<EventId>
    requires forall i :: 0 <= i < |at| ==> 0 <= at[i] < |events|
  {
    seq(|at|, i requires 0 <= i < |at| => events[at[i]])
  }

  lemma {:induction false} PositionsName(index: map<EventId, int>, events: seq<EventId>, row: seq<EventId>)
    requires Indexes(index, events) && forall e :: e in row ==> e in index
    ensures forall i :: 0 <= i < |Positions(index, row)| ==> 0 <= Positions(index, row)[i] < |events|
    ensures Names(events, Positions(index, row)) == row
  {
    if row != [] {
      var init, last := row[..|row| - 1], row[|row| - 1];
      assert row == init + [last] && last in row;
      PositionsName(index, events, init);
      var at := Positions(index, row);
      assert at == Positions(index, init) + [index[last]];
    }
  }

  method BuildIndex(events: seq<EventId>) returns (index: map<EventId, int>)
    requires StrictlySorted(events)
    ensures Indexes(index, events)
  {
    index := map[];
    for i := 0 to |events|
      invariant forall e :: e in index ==> 0 <= index[e] < i && events[index[e]] == e
      invariant forall j :: 0 <= j < i ==> events[j] in index && index[events[j]] == j
    {
      assert forall j :: 0 <= j < i ==> events[j].Less(events[i]);
      index := index[events[i] := i];
    }
  }

  /** One direction: appends each event's row and where it starts. */
  method Flatten(index: map<EventId, int>, events: seq<EventId>, rows: Adj<EventId>)
    returns (offsets: seq<int>, indices: seq<int>)
    ensures Cuts(index, events, rows, offsets, indices, |events|)
  {
    hide Positions;
    offsets, indices := [0], [];
    for i := 0 to |events|
      invariant Cuts(index, events, rows, offsets, indices, i)
    {
      var row := PositionsOf(index, Out(rows, events[i]));
      NextCut(index, events, rows, offsets, indices, i, row);
      indices := indices + row;
      offsets := offsets + [|indices|];
    }
  }

  method PositionsOf(index: map<EventId, int>, row: seq<EventId>) returns (at: seq<int>)
    ensures at == Positions(index, row)
  {
    at := [];
    for k := 0 to |row|
      invariant at == Positions(index, row[..k])
    {
      assert row[..k + 1][..k] == row[..k];
      if row[k] in index {
        at := at + [index[row[k]]];
      }
    }
    assert row[..|row|] == row;
  }

  lemma NextCut(index: map<EventId, int>, events: seq<EventId>, rows: Adj<EventId>,
                offsets: seq<int>, indices: seq<int>, n: nat, row: seq<int>)
    requires n < |events| && Cuts(index, events, rows, offsets, indices, n)
    requires row == Positions(index, Out(rows, events[n]))
    ensures Cuts(index, events, rows, offsets + [|indices| + |row|], indices + row, n + 1)
  {
    hide Positions;
    var os, all := offsets + [|indices| + |row|], indices + row;
    forall i | 0 <= i < n + 1
      ensures CutAt(index, events, rows, os, all, i)
    {
      if i < n {
        assert CutAt(index, events, rows, offsets, indices, i);
        assert os[i] == offsets[i] && os[i + 1] == offsets[i + 1];
        assert all[os[i]..os[i + 1]] == indices[os[i]..os[i + 1]];
      } else {
        assert os[n] == |indices| && all[os[n]..os[n + 1]] == row;
      }
    }
  }

  /** Every key of either relation, sorted. */
  method AllEvents(g: Graph) returns (events: seq<EventId>)
    ensures StrictlySorted(events) && forall e :: e in events <==> e in g.causes || e in g.effects
  {
    var keys: seq<EventId>, todo := [], g.causes.Keys + g.effects.Keys;
    while todo != {}
      invariant todo <= g.causes.Keys + g.effects.Keys
      invariant forall e :: e in keys <==> (e in g.causes || e in g.effects) && e !in todo
      decreases todo
    {
      var e := Pick(todo);
      todo := todo - {e};
      keys := keys + [e];
    }
    events := Normalize(keys);
  }

  method ToCsr(g: Graph) returns (c: Csr, ghost index: map<EventId, int>)
    ensures StrictlySorted(c.events) && (forall e :: e in c.events <==> e in g.causes || e in g.effects)
    ensures Indexes(index, c.events)
    ensures Cuts(index, c.events, g.causes, c.causeOffsets, c.causeIndices, |c.events|)
    ensures Cuts(index, c.events, g.effects, c.effectOffsets, c.effectIndices, |c.events|)
  {
    hide Cuts;
    var events := AllEvents(g);
    var byEvent := BuildIndex(events);
    var causeOffsets, causeIndices := Flatten(byEvent, events, g.causes);
    var effectOffsets, effectIndices := Flatten(byEvent, events, g.effects);
    c := Csr(events, causeOffsets, causeIndices, effectOffsets, effectIndices);
    index := byEvent;
  }

  /** A row as the accessors slice it; beyond the last event it is empty. */
  function Row(events: seq<EventId>, offsets: seq<int>, indices: seq<int>, i: nat): seq<int>
    requires i < |events| ==> i + 1 < |offsets| && 0 <= offsets[i] <= offsets[i + 1] <= |indices|
  {
    if i >= |events| then [] else indices[offsets[i]..offsets[i + 1]]
  }

  /** In every reachable graph both relations only name known events. */
  lemma NothingUnknown(g: Graph, e: EventId)
    requires Sound(g)
    ensures forall c :: c in Out(g.causes, e) ==> c in g.effects
    ensures forall c :: c in Out(g.effects, e) ==> c in g.causes
  {
    hide Acyclic;
    forall c | c in Out(g.causes, e)
      ensures c in g.effects
    {
      assert e in Out(g.effects, c);
    }
  }

  ghost predicate Reads(events: seq<EventId>, at: seq<int>, row: seq<EventId>) {
    (forall k :: 0 <= k < |at| ==> 0 <= at[k] < |events|) && Names(events, at) == row
  }

  lemma RowReads(index: map<EventId, int>, events: seq<EventId>, rows: Adj<EventId>,
                 offsets: seq<int>, indices: seq<int>, i: nat)
    requires Indexes(index, events) && i < |events| && Cuts(index, events, rows, offsets, indices, |events|)
    requires forall e :: e in Out(rows, events[i]) ==> e in index
    ensures CutAt(index, events, rows, offsets, indices, i)
    ensures Reads(events, Row(events, offsets, indices, i), Out(rows, events[i]))
  {
    hide Positions;
    PositionsName(index, events, Out(rows, events[i]));
  }

  /** The compressed form keeps the graph: reading a row by position names exactly the row of the event. */
  lemma CsrKeepsGraph(g: Graph, c: Csr, index: map<EventId, int>, i: nat)
    requires Sound(g) && i < |c.events|
    requires forall e :: e in c.events <==> e in g.causes || e in g.effects
    requires Indexes(index, c.events)
    requires Cuts(index, c.events, g.causes, c.causeOffsets, c.causeIndices, |c.events|)
    requires Cuts(index, c.events, g.effects, c.effectOffsets, c.effectIndices, |c.events|)
    ensures CutAt(index, c.events, g.causes, c.causeOffsets, c.causeIndices, i)
    ensures CutAt(index, c.events, g.effects, c.effectOffsets, c.effectIndices, i)
    ensures Reads(c.events, Row(c.events, c.causeOffsets, c.causeIndices, i), Out(g.causes, c.events[i]))
    ensures Reads(c.events, Row(c.events, c.effectOffsets, c.effectIndices, i), Out(g.effects, c.events[i]))
  {
    hide Sound, Reads;
    var e := c.events[i];
    NothingUnknown(g, e);
    assert forall x :: x in c.events ==> x in index;
    RowReads(index, c.events, g.causes, c.causeOffsets, c.causeIndices, i);
    RowReads(index, c.events, g.effects, c.effectOffsets, c.effectIndices, i);
  }
}
