/** The mutable causal graph: registration with its ancestor search, traces and sorting. */
module CausalGraph {
  import opened Core
  import opened Digraph
  import opened CausalSpec
  import CausalTrace
  import Bits
  import opened KahnSpec
  import CausalSort

  datatype CausalError = CycleDetected(from: EventId, to: EventId)

  class CausalGraph {
    var causes: Adj<EventId>
    var effects: Adj<EventId>

    ghost function Value(): Graph
      reads this
    {
      Graph(causes, effects)
    }

    constructor ()
      ensures Value() == Run([])
    {
      causes, effects := map[], map[];
    }

    /** Breadth-first search upstream from `descendant`. */
    method IsAncestorOf(ancestor: EventId, descendant: EventId) returns (r: bool)
      ensures r <==> Reaches(causes, descendant, ancestor)
    {
      hide Reaches;
      ReachesSelf(causes, descendant);
      if ancestor == descendant {
        return true;
      }
      var queue := [descendant];
      var visited := {descendant};
      ghost var all := Nodes(causes) + {descendant};
      while queue != []
        invariant descendant in visited && visited <= all && ancestor !in visited
        invariant forall x :: x in queue ==> x in visited
        invariant forall x :: x in visited ==> Reaches(causes, descendant, x)
        invariant forall x, y :: x in visited && x !in queue && y in Out(causes, x) ==> y in visited
        decreases all - visited, |queue|
      {
        var current := queue[0];
        ghost var queue0, visited0 := queue, visited;
        queue := queue[1..];
        var row := Out(causes, current);
        for k := 0 to |row|
          invariant visited0 <= visited <= all && ancestor !in visited
          invariant forall x :: x in queue ==> x in visited
          invariant forall x :: x in queue0 ==> x == current || x in queue
          invariant forall x :: x in visited ==> Reaches(causes, descendant, x)
          invariant forall j :: 0 <= j < k ==> row[j] in visited
          invariant forall x, y :: x in visited && x != current && x !in queue && y in Out(causes, x) ==> y in visited
          invariant (visited == visited0 && |queue| < |queue0|) || all - visited < all - visited0
        {
          var c := row[k];
          ReachesNext(causes, descendant, current, c);
          if c == ancestor {
            return true;
          }
          if c !in visited {
            assert all - visited > all - (visited + {c});
            visited := visited + {c};
            queue := queue + [c];
          }
        }
      }
      ClosedKeepsReach(causes, visited, descendant, ancestor);
      r := false;
    }

    /** Registers `event`, or reports the smallest declared cause that `event` already precedes. */
    method AddEvent(event: EventId, declared: seq<EventId>) returns (r: Result<(), CausalError>)
      modifies this
      ensures Value() == Add(old(Value()), event, declared)
      ensures r.Ok? <==> !Rejects(old(Value()), event, declared)
      ensures r.Err? ==> r.error.CycleDetected? && r.error.from == event
                         && r.error.to in declared && Reaches(old(causes), r.error.to, event)
                         && forall c :: c in declared && c.Less(r.error.to) ==> !Reaches(old(causes), c, event)
    {
      hide Normalize, Rejects, Reaches;
      var cs := Normalize(declared);
      for k := 0 to |cs|
        invariant Value() == old(Value())
        invariant forall j :: 0 <= j < k ==> !Reaches(causes, cs[j], event)
      {
        if cs[k] == event {
          ReachesSelf(causes, event);
          RejectedBy(Value(), event, declared, cs[k]);
          SmallerIsEarlier(cs, k);
          return Err(CycleDetected(event, cs[k]));
        }
        var hit := IsAncestorOf(event, cs[k]);
        if hit {
          RejectedBy(Value(), event, declared, cs[k]);
          SmallerIsEarlier(cs, k);
          return Err(CycleDetected(event, cs[k]));
        }
      }
      NotRejected(Value(), event, declared);
      for k := 0 to |cs|
        invariant causes == old(causes)
        invariant effects == Link(old(effects), cs[..k], event)
      {
        var row := Out(effects, cs[k]);
        if event !in row {
          row := row + [event];
        }
        effects := effects[cs[k] := row];
        assert cs[..k + 1][..k] == cs[..k];
      }
      assert cs[..|cs|] == cs;
      causes := causes[event := cs];
      effects := effects[event := Out(effects, event)];
      r := Ok(());
    }

    /** The loop over the stored graph, watched for a number of rounds. */
    method TopologicalSort(rounds: nat) returns (r: Option<Result<seq<EventId>, string>>)
      requires Sound(Value())
      ensures !Acyclic(effects) ==> r.None?
      ensures Acyclic(effects) && rounds >= Bits.Pow2(|Nodes(causes)|) ==> r.Some?
      ensures NoStale(Value()) && rounds >= |Nodes(causes)| ==> r.Some?
      ensures r.Some? ==> (r.value.Ok? <==> NoStale(Value()))
      ensures r.Some? && r.value.Ok? ==> IsTopological(causes, r.value.value)
    {
      hide Sound, Acyclic, NoStale, IsTopological, Bits.Pow2, Nodes;
      r := CausalSort.TopologicalSort(Graph(causes, effects), rounds);
    }

    method TraceCauses(root: EventId, maxDepth: nat) returns (t: CausalTrace.CausalTrace)
      ensures CausalTrace.IsTrace(causes, root, maxDepth, t)
    {
      t := CausalTrace.Trace(causes, root, maxDepth);
    }

    method TraceEffects(root: EventId, maxDepth: nat) returns (t: CausalTrace.CausalTrace)
      ensures CausalTrace.IsTrace(effects, root, maxDepth, t)
    {
      t := CausalTrace.Trace(effects, root, maxDepth);
    }
  }
}
