/** Slices of slices. */
module Slices {

  lemma SubSlice<T>(s: seq<T>, lo: nat, hi: nat, a: nat, b: nat)
    requires lo + b <= hi <= |s| && a <= b
    ensures s[lo..hi][a..b] == s[lo + a..lo + b]
  {
    var x, y := s[lo..hi][a..b], s[lo + a..lo + b];
    assert |x| == |y| && forall i :: 0 <= i < |x| ==> x[i] == s[lo..hi][a + i] == s[lo + a + i] == y[i];
  }

  lemma Cut<T>(s: seq<T>, i: nat, j: nat)
    requires i <= j <= |s|
    ensures s[..j] == s[..i] + s[i..j]
  {
  }
}
