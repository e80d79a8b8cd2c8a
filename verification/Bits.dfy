/** Natural numbers as little-endian bit strings: the machine operators the codecs use, and the
    laws that relate them to sequences of bits. */
module Bits {

  function Pow2(n: nat): (r: nat)
    ensures r > 0
  {
    if n == 0 then 1 else 2 * Pow2(n - 1)
  }

  /** `x << n` on unbounded integers. */
  function Shl(x: nat, n: nat): nat {
    if n == 0 then x else 2 * Shl(x, n - 1)
  }

  /** `x >> n`. */
  function Shr(x: nat, n: nat): nat {
    if n == 0 then x else Shr(x / 2, n - 1)
  }

  /** The low `n` bits of `x`: what a machine word of width `n` keeps. */
  function Low(x: nat, n: nat): nat {
    if n == 0 then 0 else x % 2 + 2 * Low(x / 2, n - 1)
  }

  function Or(a: nat, b: nat): nat {
    if a == 0 then b
    else if b == 0 then a
    else (if a % 2 == 1 || b % 2 == 1 then 1 else 0) + 2 * Or(a / 2, b / 2)
  }

  function And(a: nat, b: nat): nat {
    if a == 0 || b == 0 then 0
    else (if a % 2 == 1 && b % 2 == 1 then 1 else 0) + 2 * And(a / 2, b / 2)
  }

  function Xor(a: nat, b: nat): nat {
    if a == 0 then b
    else if b == 0 then a
    else (if a % 2 != b % 2 then 1 else 0) + 2 * Xor(a / 2, b / 2)
  }

  /** The `n` lowest bits of `x`, least significant first. */
  function ToBits(x: nat, n: nat): (r: seq<bool>)
    ensures |r| == n
  {
    if n == 0 then [] else [x % 2 == 1] + ToBits(x / 2, n - 1)
  }

  function FromBits(s: seq<bool>): nat {
    if s == [] then 0 else (if s[0] then 1 else 0) + 2 * FromBits(s[1..])
  }

  /** `x` is representable in `n` bits. */
  predicate Fits(x: nat, n: nat) {
    Shr(x, n) == 0
  }

  lemma {:induction false} Pow2Add(m: nat, n: nat)
    ensures Pow2(m + n) == Pow2(m) * Pow2(n)
  {
    if m > 0 {
      Pow2Add(m - 1, n);
      assert Pow2(m + n) == 2 * (Pow2(m - 1) * Pow2(n));
    }
  }

  lemma Powers()
    ensures Pow2(8) == 0x100 && Pow2(31) == 0x8000_0000
    ensures Pow2(32) == 0x1_0000_0000 && Pow2(64) == 0x1_0000_0000_0000_0000
  {
    assert Pow2(4) == 16 && Pow2(3) == 8;
    Pow2Add(4, 4);
    Pow2Add(8, 8);
    Pow2Add(4, 3);
    Pow2Add(8, 7);
    Pow2Add(16, 15);
    Pow2Add(16, 16);
    Pow2Add(32, 32);
  }

  lemma {:induction false} FitsIsBound(x: nat, n: nat)
    ensures Fits(x, n) <==> x < Pow2(n)
  {
    if n > 0 {
      FitsIsBound(x / 2, n - 1);
    }
  }

  lemma {:induction false} FitsMore(x: nat, m: nat, n: nat)
    requires Fits(x, m) && m <= n
    ensures Fits(x, n)
    decreases m
  {
    if m > 0 {
      FitsMore(x / 2, m - 1, n - 1);
    } else {
      ShrZero(n);
    }
  }

  lemma {:induction false} ShrZero(n: nat)
    ensures Shr(0, n) == 0
  {
    if n > 0 {
      ShrZero(n - 1);
    }
  }

  lemma {:induction false} FromToBits(x: nat, n: nat)
    ensures FromBits(ToBits(x, n)) == Low(x, n)
    ensures Fits(x, n) ==> Low(x, n) == x
    ensures Fits(Low(x, n), n)
  {
    if n > 0 {
      FromToBits(x / 2, n - 1);
      assert ToBits(x, n)[1..] == ToBits(x / 2, n - 1);
      assert Low(x, n) / 2 == Low(x / 2, n - 1);
    }
  }

  lemma {:induction false} ToFromBits(s: seq<bool>)
    ensures ToBits(FromBits(s), |s|) == s
    ensures Fits(FromBits(s), |s|)
  {
    if s != [] {
      ToFromBits(s[1..]);
      assert FromBits(s) / 2 == FromBits(s[1..]);
    }
  }

  /** The lowest bit comes first. */
  lemma ToBitsStep(x: nat, n: nat)
    requires n > 0
    ensures ToBits(x, n) == [x % 2 == 1] + ToBits(x / 2, n - 1)
  {
  }

  lemma ConsAppend(h: bool, s: seq<bool>, t: seq<bool>)
    ensures [h] + (s + t) == ([h] + s) + t
  {
  }

  /** The bits of `x` split at position `m`. */
  lemma {:induction false} ToBitsSplit(x: nat, m: nat, n: nat)
    ensures ToBits(x, m + n) == ToBits(x, m) + ToBits(Shr(x, m), n)
    decreases m
  {
    if m == 0 {
      assert ToBits(x, 0) == [] && Shr(x, 0) == x;
    } else {
      ToBitsSplit(x / 2, m - 1, n);
      ToBitsStep(x, m + n);
      ToBitsStep(x, m);
      assert Shr(x, m) == Shr(x / 2, m - 1);
      hide *;
      ConsAppend(x % 2 == 1, ToBits(x / 2, m - 1), ToBits(Shr(x, m), n));
    }
  }

  lemma {:induction false} FitsShr(x: nat, m: nat, n: nat)
    requires Fits(x, m + n)
    ensures Fits(Shr(x, m), n)
    decreases m
  {
    if m > 0 {
      FitsShr(x / 2, m - 1, n);
    }
  }

  /** Masking with `2^n - 1` keeps the low bits. */
  lemma {:induction false} AndMask(x: nat, n: nat)
    ensures Pow2(n) > 0 && And(x, Pow2(n) - 1) == Low(x, n)
  {
    if n > 0 {
      AndMask(x / 2, n - 1);
      var mask := Pow2(n) - 1;
      assert mask % 2 == 1 && mask / 2 == Pow2(n - 1) - 1;
      if x == 0 {
        LowZero(n);
      }
    }
  }

  lemma {:induction false} LowZero(n: nat)
    ensures Low(0, n) == 0
  {
    if n > 0 {
      LowZero(n - 1);
    }
  }

  lemma {:induction false} ShlZero(n: nat)
    ensures Shl(0, n) == 0
  {
    if n > 0 {
      ShlZero(n - 1);
    }
  }

  lemma {:induction false} OrDouble(b: nat, x: nat)
    ensures Or(b, 2 * x) == b % 2 + 2 * Or(b / 2, x)
  {
  }

  lemma LowStep(x: nat, n: nat)
    requires n > 0
    ensures Low(x, n) == x % 2 + 2 * Low(x / 2, n - 1)
  {
  }

  lemma LowDouble(x: nat, n: nat)
    requires n > 0
    ensures Low(2 * x, n) == 2 * Low(x, n - 1)
  {
    hide Low;
    LowStep(2 * x, n);
  }

  lemma FitsHalf(x: nat, n: nat)
    requires n > 0
    ensures Fits(x, n) <==> Fits(x / 2, n - 1)
  {
  }

  /** Accumulating `w` above the `c` bits already held in `b`, inside a word of width `width`:
      nothing is lost and the bits of `w` follow the bits of `b`. */
  lemma {:induction false} Accumulate(b: nat, w: nat, c: nat, n: nat, width: nat)
    requires Fits(b, c) && Fits(w, n) && c + n <= width
    ensures var r := Or(b, Low(Shl(w, c), width));
            Fits(r, c + n) && ToBits(r, c + n) == ToBits(b, c) + ToBits(w, n)
    decreases c
  {
    if c == 0 {
      FitsMore(w, n, width);
      FromToBits(w, width);
    } else {
      FitsHalf(b, c);
      Accumulate(b / 2, w, c - 1, n, width - 1);
      var x := Low(Shl(w, c - 1), width - 1);
      assert Shl(w, c) == 2 * Shl(w, c - 1);
      LowDouble(Shl(w, c - 1), width);
      OrDouble(b, x);
      var r := Or(b, 2 * x);
      hide *;
      assert r % 2 == b % 2 && r / 2 == Or(b / 2, x);
      FitsHalf(r, c + n);
      ToBitsStep(r, c + n);
      ToBitsStep(b, c);
      ConsAppend(b % 2 == 1, ToBits(b / 2, c - 1), ToBits(w, n));
    }
  }

  lemma {:induction false} XorSelf(a: nat)
    ensures Xor(a, a) == 0
  {
    if a != 0 {
      XorSelf(a / 2);
    }
  }

  lemma {:induction false} XorComm(a: nat, b: nat)
    ensures Xor(a, b) == Xor(b, a)
  {
    if a != 0 && b != 0 {
      XorComm(a / 2, b / 2);
    }
  }

  lemma {:induction false} XorHalves(a: nat, b: nat)
    ensures Xor(a, b) % 2 == (if a % 2 != b % 2 then 1 else 0) && Xor(a, b) / 2 == Xor(a / 2, b / 2)
  {
    if a == 0 {
      assert Xor(a, b) == b && Xor(a / 2, b / 2) == b / 2;
    } else if b == 0 {
      assert Xor(a, b) == a && Xor(a / 2, b / 2) == a / 2;
    }
  }

  lemma {:induction false} XorLaws(a: nat, b: nat)
    ensures Xor(a, 0) == a && Xor(0, a) == a && Xor(a, a) == 0
    ensures Xor(a, b) == Xor(b, a)
    ensures Xor(a, b) % 2 == (if a % 2 != b % 2 then 1 else 0) && Xor(a, b) / 2 == Xor(a / 2, b / 2)
  {
    XorSelf(a);
    XorComm(a, b);
    XorHalves(a, b);
  }

  lemma {:induction false} XorAssoc(a: nat, b: nat, c: nat)
    ensures Xor(Xor(a, b), c) == Xor(a, Xor(b, c))
    decreases a + b + c
  {
    if a != 0 && b != 0 && c != 0 {
      XorAssoc(a / 2, b / 2, c / 2);
      XorLaws(a, b);
      XorLaws(b, c);
      XorLaws(Xor(a, b), c);
      XorLaws(a, Xor(b, c));
    } else {
      XorLaws(a, b);
      XorLaws(b, c);
    }
  }

  /** Applying a difference to the value it was taken from gives the other value back. */
  lemma {:induction false} XorInverse(a: nat, b: nat)
    ensures Xor(a, Xor(b, a)) == b
  {
    XorLaws(b, a);
    XorAssoc(a, a, b);
    XorLaws(a, a);
    XorLaws(0, b);
  }

  lemma {:induction false} XorFits(a: nat, b: nat, n: nat)
    requires Fits(a, n) && Fits(b, n)
    ensures Fits(Xor(a, b), n)
  {
    if n > 0 {
      XorLaws(a, b);
      XorFits(a / 2, b / 2, n - 1);
    }
  }
}
