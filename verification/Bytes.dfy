/** Little-endian integers as byte strings. */
module Bytes {
  import opened Core

  /** `x` in `n` little-endian bytes; higher digits are dropped. */
  function Le(x: nat, n: nat): (r: seq<byte>)
    ensures |r| == n
  {
    if n == 0 then [] else [(x % 256) as byte] + Le(x / 256, n - 1)
  }

  function FromLe(s: seq<byte>): nat {
    if s == [] then 0 else s[0] as nat + 256 * FromLe(s[1..])
  }

  /** `x` is representable in `n` bytes. */
  predicate Fits(x: nat, n: nat) {
    if n == 0 then x == 0 else Fits(x / 256, n - 1)
  }

  lemma {:induction false} FromLeOfLe(x: nat, n: nat)
    requires Fits(x, n)
    ensures FromLe(Le(x, n)) == x
  {
    if n > 0 {
      FromLeOfLe(x / 256, n - 1);
      assert Le(x, n)[1..] == Le(x / 256, n - 1);
    }
  }

  lemma {:induction false} LeOfFromLe(s: seq<byte>)
    ensures Fits(FromLe(s), |s|) && Le(FromLe(s), |s|) == s
  {
    if s != [] {
      LeOfFromLe(s[1..]);
      assert FromLe(s) / 256 == FromLe(s[1..]) && FromLe(s) % 256 == s[0] as nat;
    }
  }

  lemma FitsWidths(x: nat)
    ensures Fits(x, 1) <==> x < 0x100
    ensures Fits(x, 2) <==> x < U16
    ensures Fits(x, 4) <==> x < U32
    ensures Fits(x, 8) <==> x < U64
  {
    assert Fits(x, 2) == Fits(x / 256, 1);
    assert Fits(x, 3) == Fits(x / 256, 2) == Fits(x / 256 / 256, 1);
    assert Fits(x, 4) == Fits(x / 256, 3) == Fits(x / 256 / 256, 2) == Fits(x / 256 / 256 / 256, 1);
    var y := x / 256 / 256 / 256 / 256;
    assert Fits(x, 8) == Fits(x / 256, 7) == Fits(x / 256 / 256, 6) == Fits(x / 256 / 256 / 256, 5) == Fits(y, 4);
    assert Fits(y, 4) == Fits(y / 256, 3) == Fits(y / 256 / 256, 2) == Fits(y / 256 / 256 / 256, 1);
  }

  lemma FieldRoundTrip(x: nat, n: nat, bound: nat)
    requires x < bound && ((n == 2 && bound == U16) || (n == 4 && bound == U32))
    ensures FromLe(Le(x, n)) == x
  {
    FitsWidths(x);
    FromLeOfLe(x, n);
  }

  /** The integer in the `n` bytes at `offset`. */
  function Get(s: seq<byte>, offset: nat, n: nat): nat
    requires offset + n <= |s|
  {
    FromLe(s[offset..offset + n])
  }

  /** Four bytes, the least significant first. */
  function Quad(a: byte, b: byte, c: byte, d: byte): nat {
    a as nat + 256 * b as nat + 65_536 * c as nat + 16_777_216 * d as nat
  }

  lemma TwoBytes(s: seq<byte>, at: nat)
    requires at + 2 <= |s|
    ensures Get(s, at, 2) == s[at] as nat + 256 * s[at + 1] as nat
  {
    var w := s[at..at + 2];
    assert w[1..][1..] == [] && FromLe(w[1..]) == s[at + 1] as nat;
  }

  lemma FourBytes(s: seq<byte>, at: nat)
    requires at + 4 <= |s|
    ensures Get(s, at, 4) == Quad(s[at], s[at + 1], s[at + 2], s[at + 3])
  {
    TwoBytes(s, at + 2);
    var w := s[at..at + 4];
    assert w[1..] == s[at + 1..at + 4] && w[1..][1..] == s[at + 2..at + 4];
    assert FromLe(w[1..]) == s[at + 1] as nat + 256 * Get(s, at + 2, 2);
  }

  /** A slice of a suffix is a slice of the whole. */
  lemma SliceOfSuffix(s: seq<byte>, k: nat, lo: nat, hi: nat)
    requires lo <= hi && k + hi <= |s|
    ensures s[k..][lo..hi] == s[k + lo..k + hi]
  {
  }
}
