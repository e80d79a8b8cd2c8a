/** Groups of fixed-width little-endian integers, written and read in order. */
module Fields {
  import opened Core
  import opened Bytes

  /** Every value is representable in its width. */
  ghost predicate Fit(widths: seq<nat>, values: seq<nat>) {
    |widths| == |values| && forall i :: 0 <= i < |widths| ==> Fits(values[i], widths[i])
  }

  function Size(widths: seq<nat>): nat {
    if widths == [] then 0 else widths[0] + Size(widths[1..])
  }

  function Put(widths: seq<nat>, values: seq<nat>): (r: seq<byte>)
    requires |widths| == |values|
    ensures |r| == Size(widths)
  {
    if widths == [] then [] else Le(values[0], widths[0]) + Put(widths[1..], values[1..])
  }

  function Take(widths: seq<nat>, b: seq<byte>): (values: seq<nat>)
    requires |b| == Size(widths)
    ensures |values| == |widths|
  {
    if widths == [] then []
    else [FromLe(b[..widths[0]])] + Take(widths[1..], b[widths[0]..])
  }

  lemma {:induction false} TakePut(widths: seq<nat>, values: seq<nat>)
    requires Fit(widths, values)
    ensures Take(widths, Put(widths, values)) == values
  {
    if widths != [] {
      var b, w := Put(widths, values), widths[0];
      assert b[..w] == Le(values[0], w) && b[w..] == Put(widths[1..], values[1..]);
      FromLeOfLe(values[0], w);
      TakePut(widths[1..], values[1..]);
    }
  }

  lemma {:induction false} PutTake(widths: seq<nat>, b: seq<byte>)
    requires |b| == Size(widths)
    ensures Fit(widths, Take(widths, b)) && Put(widths, Take(widths, b)) == b
  {
    if widths != [] {
      var w := widths[0];
      LeOfFromLe(b[..w]);
      PutTake(widths[1..], b[w..]);
      var values := Take(widths, b);
      assert values[1..] == Take(widths[1..], b[w..]);
      assert forall i :: 1 <= i < |widths| ==> widths[i] == widths[1..][i - 1] && values[i] == values[1..][i - 1];
      assert b == b[..w] + b[w..];
    }
  }
}
