/** Z-order codes of chunk coordinates and the code intervals of a box. */
module Morton {
  import Bits

  /** Spreads 32 bits over the even positions of a 64-bit word. */
  function Spread(v: bv32): bv64 {
    var x0 := v as bv64;
    var x1 := (x0 | (x0 << 16)) & 0x0000_ffff_0000_ffff;
    var x2 := (x1 | (x1 << 8)) & 0x00ff_00ff_00ff_00ff;
    var x3 := (x2 | (x2 << 4)) & 0x0f0f_0f0f_0f0f_0f0f;
    var x4 := (x3 | (x3 << 2)) & 0x3333_3333_3333_3333;
    (x4 | (x4 << 1)) & 0x5555_5555_5555_5555
  }

  /** Gathers the even positions of a 64-bit word. */
  function Compact(c: bv64): bv32 {
    var x0 := c & 0x5555_5555_5555_5555;
    var x1 := (x0 | (x0 >> 1)) & 0x3333_3333_3333_3333;
    var x2 := (x1 | (x1 >> 2)) & 0x0f0f_0f0f_0f0f_0f0f;
    var x3 := (x2 | (x2 >> 4)) & 0x00ff_00ff_00ff_00ff;
    var x4 := (x3 | (x3 >> 8)) & 0x0000_ffff_0000_ffff;
    ((x4 | (x4 >> 16)) & 0x0000_0000_ffff_ffff) as bv32
  }

  function Encode(x: bv32, y: bv32): bv64 {
    Spread(x) | (Spread(y) << 1)
  }

  function Decode(c: bv64): (bv32, bv32) {
    (Compact(c), Compact(c >> 1))
  }

  const EVEN: bv64 := 0x5555_5555_5555_5555

  lemma SpreadIsEven(v: bv32)
    ensures Spread(v) & EVEN == Spread(v)
  {

  }

  lemma CompactIgnoresOdd(c: bv64)
    ensures Compact(c) == Compact(c & EVEN)
  {
    assert c & EVEN == (c & EVEN) & EVEN;
  }

  lemma CompactSpread(v: bv32)
    ensures Compact(Spread(v)) == v
  {
  }

  lemma Interleave(a: bv64, b: bv64)
    requires a & EVEN == a && b & EVEN == b
    ensures (a | (b << 1)) & EVEN == a
    ensures ((a | (b << 1)) >> 1) & EVEN == b
  {
  }

  lemma FirstCoordinate(x: bv32, y: bv32)
    ensures Compact(Encode(x, y)) == x
  {
    hide Spread, Compact;
    SpreadIsEven(x);
    SpreadIsEven(y);
    Interleave(Spread(x), Spread(y));
    CompactIgnoresOdd(Encode(x, y));
    CompactSpread(x);
  }

  lemma SecondCoordinate(x: bv32, y: bv32)
    ensures Compact(Encode(x, y) >> 1) == y
  {
    hide Spread, Compact;
    SpreadIsEven(x);
    SpreadIsEven(y);
    Interleave(Spread(x), Spread(y));
    CompactIgnoresOdd(Encode(x, y) >> 1);
    CompactSpread(y);
  }

  lemma DecodeEncode(x: bv32, y: bv32)
    ensures Decode(Encode(x, y)) == (x, y)
  {
    hide Encode, Compact;
    FirstCoordinate(x, y);
    SecondCoordinate(x, y);
  }

  lemma EncodeDecode(c: bv64)
    ensures Encode(Decode(c).0, Decode(c).1) == c
  {
  }

  // ----- The word that holds a number

  /** The low `k` bits of `n`, most significant first. */
  function Word(n: nat, k: nat): bv32 {
    if k == 0 then 0 else Push(Word(n / 2, k - 1), n % 2 == 1)
  }

  /** The number in the low `k` bits of a word. */
  ghost function Number(w: bv32, k: nat): int {
    if k == 0 then 0 else 2 * Number(Half(w), k - 1) + (if Odd(w) then 1 else 0)
  }

  ghost function Half(w: bv32): bv32 {
    w >> 1
  }

  ghost predicate Odd(w: bv32) {
    w & 1 == 1
  }

  ghost function Mask(k: nat): bv32 {
    if k == 0 then 0 else Push(Mask(k - 1), true)
  }

  /** No bit outside the mask. */
  ghost predicate Inside(w: bv32, mask: bv32) {
    w | mask == mask
  }

  lemma {:induction false} WordFits(n: nat, k: nat)
    ensures Inside(Word(n, k), Mask(k))
  {
    hide Push, Inside;
    NothingFits();
    if k > 0 {
      WordFits(n / 2, k - 1);
      PushFits(Word(n / 2, k - 1), Mask(k - 1), n % 2 == 1);
    }
  }

  /** One more low bit. */
  function Push(w: bv32, odd: bool): bv32 {
    (w << 1) | (if odd then 1 else 0)
  }

  lemma NothingFits()
    ensures Inside(0, 0)
  {
  }

  lemma PushOr(w: bv32, mask: bv32, odd: bool)
    ensures Push(w, odd) | Push(mask, true) == Push(w | mask, true)
  {
  }

  lemma PushFits(w: bv32, mask: bv32, odd: bool)
    requires Inside(w, mask)
    ensures Inside(Push(w, odd), Push(mask, true))
  {
    PushOr(w, mask, odd);
    hide Push;
  }

  lemma {:induction false} MaskHasRoom(k: nat)
    requires k < 32
    ensures Mask(k) & 0x8000_0000 == 0
    ensures Mask(k) <= Mask(31)
    decreases 31 - k
  {
    if k < 31 {
      MaskHasRoom(k + 1);
      MaskGrows(k + 1);
    } else {
      Mask31();
    }
  }

  lemma {:induction false} MaskGrows(k: nat)
    ensures k > 0 ==> Mask(k - 1) | Mask(k) == Mask(k)
  {
    if k > 1 {
      MaskGrows(k - 1);
    }
  }

  lemma Mask31()
    ensures Mask(31) == 0x7fff_ffff
  {
    assert Mask(5) == 0x1f;
    assert Mask(10) == 0x3ff;
    assert Mask(15) == 0x7fff;
    assert Mask(20) == 0xf_ffff;
    assert Mask(25) == 0x1ff_ffff;
    assert Mask(30) == 0x3fff_ffff;
  }

  lemma {:induction false} NumberOfWord(n: nat, k: nat)
    requires k <= 32 && n < Bits.Pow2(k)
    ensures Number(Word(n, k), k) == n
  {
    hide Push, Mask, Half, Odd, Inside;
    if k > 0 {
      NumberOfWord(n / 2, k - 1);
      WordFits(n / 2, k - 1);
      MaskHasRoom(k - 1);
      ShiftBack(Word(n / 2, k - 1), Mask(k - 1), n % 2 == 1);
    }
  }

  lemma ShiftBack(w: bv32, mask: bv32, odd: bool)
    requires Inside(w, mask) && mask & 0x8000_0000 == 0
    ensures Half(Push(w, odd)) == w && (Odd(Push(w, odd)) <==> odd)
  {
  }

  // ----- Codes of chunk coordinates as numbers

  const SIDE: int := 0x1_0000_0000

  function Code(x: nat, y: nat): (c: int)
    ensures c >= 0
  {
    Encode(Word(x, 32), Word(y, 32)) as int
  }

  lemma SameCode(c: bv64, d: bv64)
    requires c as int == d as int
    ensures c == d
  {
    assert (c as int) as bv64 == c;
  }

  /** Different chunks have different codes. */
  lemma CodeInjective(x: nat, y: nat, u: nat, v: nat)
    requires x < SIDE && y < SIDE && u < SIDE && v < SIDE
    ensures Code(x, y) == Code(u, v) <==> x == u && y == v
  {
    hide Encode, Decode, Word;
    if Code(x, y) == Code(u, v) {
      SameCode(Encode(Word(x, 32), Word(y, 32)), Encode(Word(u, 32), Word(v, 32)));
      DecodeEncode(Word(x, 32), Word(y, 32));
      DecodeEncode(Word(u, 32), Word(v, 32));
      Bits.Powers();
      NumberOfWord(x, 32);
      NumberOfWord(u, 32);
      NumberOfWord(y, 32);
      NumberOfWord(v, 32);
    }
  }

  // ----- The bits of a code

  /** One more binary digit of a coordinate moves its spread bits two places up. */
  lemma SpreadDigit(v: bv32, a: bv32)
    requires v < 0x8000_0000 && a < 2
    ensures Spread((v << 1) | a) == (Spread(v) << 2) | (a as bv64)
  {
  }

  /** The digits of both coordinates alternate in a code, the first coordinate's on the even places: this determines
      every code from the code of the origin. */
  lemma CodeDigits(x: bv32, y: bv32, a: bv32, b: bv32)
    requires x < 0x8000_0000 && y < 0x8000_0000 && a < 2 && b < 2
    ensures Encode((x << 1) | a, (y << 1) | b) == (Encode(x, y) << 2) | ((b as bv64) << 1) | (a as bv64)
  {
    hide Spread;
    SpreadDigit(x, a);
    SpreadDigit(y, b);
    ShiftPair(Spread(x), Spread(y), a as bv64, b as bv64);
  }

  lemma OriginCode()
    ensures Encode(0, 0) == 0
  {
  }

  lemma ShiftPair(p: bv64, q: bv64, a: bv64, b: bv64)
    ensures ((p << 2) | a) | (((q << 2) | b) << 1) == ((p | (q << 1)) << 2) | (b << 1) | a
  {
  }
}
