/** CRC-32 with the reflected polynomial of section 3.2.9 of IEEE 802.3: bit by bit, and from a table. */
module Crc32 {
  import opened Core
  import opened Bits
  import opened Bytes

  const POLY: nat := 0xEDB88320
  const ONES: nat := 0xFFFFFFFF

  /** The register after shifting out one bit. */
  function Shift(c: nat): nat {
    if c % 2 == 1 then Xor(POLY, c / 2) else c / 2
  }

  function Shifts(c: nat, n: nat): nat
    decreases n
  {
    if n == 0 then c else Shifts(Shift(c), n - 1)
  }

  /** The register after taking in `data`, one bit at a time. */
  function Feed(c: nat, data: seq<byte>): nat
    decreases data
  {
    if data == [] then c else Feed(Shifts(Xor(c, data[0] as nat), 8), data[1..])
  }

  /** The reference checksum. */
  function Crc(data: seq<byte>): nat {
    Xor(Feed(ONES, data), ONES)
  }

  // ----- The register is linear over exclusive or

  lemma ShiftLinear(a: nat, b: nat)
    ensures Shift(Xor(a, b)) == Xor(Shift(a), Shift(b))
  {
    var x, y := a / 2, b / 2;
    XorHalves(a, b);
    if a % 2 == 1 && b % 2 == 1 {
      calc {
        Xor(Xor(POLY, x), Xor(POLY, y));
        { XorComm(POLY, x); XorAssoc(x, POLY, Xor(POLY, y)); }
        Xor(x, Xor(POLY, Xor(POLY, y)));
        { XorAssoc(POLY, POLY, y); XorSelf(POLY); }
        Xor(x, Xor(0, y));
      }
    } else if a % 2 == 1 {
      XorAssoc(POLY, x, y);
    } else if b % 2 == 1 {
      XorComm(x, y);
      XorAssoc(POLY, y, x);
      XorComm(Xor(POLY, y), x);
    }
  }

  lemma {:induction false} ShiftsLinear(a: nat, b: nat, n: nat)
    ensures Shifts(Xor(a, b), n) == Xor(Shifts(a, n), Shifts(b, n))
    decreases n
  {
    if n > 0 {
      ShiftLinear(a, b);
      ShiftsLinear(Shift(a), Shift(b), n - 1);
    }
  }

  lemma {:induction false} ShiftsAdd(c: nat, m: nat, n: nat)
    ensures Shifts(c, m + n) == Shifts(Shifts(c, m), n)
    decreases m
  {
    if m > 0 {
      ShiftsAdd(Shift(c), m - 1, n);
    }
  }

  /** Zero bits just move the register. */
  lemma {:induction false} ShiftsOutShl(h: nat, n: nat)
    ensures Shifts(Shl(h, n), n) == h
    decreases n
  {
    if n > 0 {
      assert Shift(Shl(h, n)) == Shl(h, n - 1);
      ShiftsOutShl(h, n - 1);
    }
  }

  lemma ShiftsOutZeros(h: nat)
    ensures Shifts(256 * h, 8) == h
  {
    assert Shl(h, 1) == 2 * h && Shl(h, 2) == 4 * h && Shl(h, 3) == 8 * h && Shl(h, 4) == 16 * h;
    assert Shl(h, 5) == 32 * h && Shl(h, 6) == 64 * h && Shl(h, 7) == 128 * h && Shl(h, 8) == 256 * h;
    ShiftsOutShl(h, 8);
  }

  // ----- The table

  /** A number is the exclusive or of its low byte and the rest. */
  lemma XorSplit(lo: nat, hi: nat)
    requires lo < 256
    ensures Xor(lo, 256 * hi) == lo + 256 * hi
  {
    XorSplitBits(lo, hi, 8, 256);
  }

  lemma {:induction false} XorSplitBits(lo: nat, hi: nat, n: nat, size: nat)
    requires lo < size && size == Pow2(n)
    ensures Xor(lo, size * hi) == lo + size * hi
    decreases n
  {
    hide Xor;
    if n == 0 {
      XorComm(0, hi);
      XorZeroRight(hi);
    } else {
      var half := Pow2(n - 1);
      XorSplitAt(lo, size * hi, half * hi);
      XorSplitBits(lo / 2, hi, n - 1, half);
    }
  }

  lemma XorSplitAt(a: nat, b: nat, h: nat)
    requires b == 2 * h
    ensures Xor(a, b) == a % 2 + 2 * Xor(a / 2, h)
  {
    XorHalves(a, b);
  }

  lemma Halve8(x: nat)
    ensures x / 2 / 2 / 2 / 2 / 2 / 2 / 2 / 2 == x / 256
  {
    assert x / 2 / 2 == x / 4 && x / 4 / 2 == x / 8 && x / 8 / 2 == x / 16 && x / 16 / 2 == x / 32;
    assert x / 32 / 2 == x / 64 && x / 64 / 2 == x / 128 && x / 128 / 2 == x / 256;
  }

  lemma XorHigh(a: nat, b: nat)
    ensures Xor(a, b) / 256 == Xor(a / 256, b / 256)
  {
    XorHalves(a, b);
    XorHalves(a / 2, b / 2);
    XorHalves(a / 2 / 2, b / 2 / 2);
    XorHalves(a / 2 / 2 / 2, b / 2 / 2 / 2);
    XorHalves(a / 2 / 2 / 2 / 2, b / 2 / 2 / 2 / 2);
    XorHalves(a / 2 / 2 / 2 / 2 / 2, b / 2 / 2 / 2 / 2 / 2);
    XorHalves(a / 2 / 2 / 2 / 2 / 2 / 2, b / 2 / 2 / 2 / 2 / 2 / 2);
    XorHalves(a / 2 / 2 / 2 / 2 / 2 / 2 / 2, b / 2 / 2 / 2 / 2 / 2 / 2 / 2);
    Halve8(a);
    Halve8(b);
    Halve8(Xor(a, b));
  }

  /** One table look-up does the work of eight shifts. */
  lemma TableStep(c: nat, b: byte)
    ensures Shifts(Xor(c, b as nat), 8) == Xor(c / 256, Shifts(Xor(c, b as nat) % 256, 8))
  {
    XorHigh(c, b as nat);
    assert Xor(c / 256, 0) == c / 256;
    ShiftsByte(Xor(c, b as nat));
  }

  lemma ShiftsByte(z: nat)
    ensures Shifts(z, 8) == Xor(z / 256, Shifts(z % 256, 8))
  {
    hide *;
    var lo, hi := z % 256, z / 256;
    XorSplit(lo, hi);
    ShiftsLinear(lo, 256 * hi, 8);
    ShiftsOutZeros(hi);
    XorComm(Shifts(lo, 8), hi);
  }

  /** The loops that fill the table. */
  method BuildTable() returns (table: array<nat>)
    ensures table.Length == 256
    ensures forall i :: 0 <= i < 256 ==> table[i] == Shifts(i, 8)
  {
    table := new nat[256];
    for i := 0 to 256
      invariant forall k :: 0 <= k < i ==> table[k] == Shifts(k, 8)
    {
      var c := ShiftByte(i);
      table[i] := c;
    }
  }

  /** The inner loop: one byte shifted out bit by bit. */
  method ShiftByte(i: nat) returns (c: nat)
    ensures c == Shifts(i, 8)
  {
    hide Xor, Shifts;
    c := i;
    for j := 0 to 8
      invariant Shifts(c, 8 - j) == Shifts(i, 8)
    {
      OneShift(c, 8 - j);
      c := if c % 2 == 1 then Xor(POLY, c / 2) else c / 2;
    }
    NoShift(c);
  }

  lemma OneShift(c: nat, n: nat)
    requires n > 0
    ensures Shifts(c, n) == Shifts(if c % 2 == 1 then Xor(POLY, c / 2) else c / 2, n - 1)
  {
    hide Xor;
  }

  lemma NoShift(c: nat)
    ensures Shifts(c, 0) == c
  {
  }

  /** The table-driven checksum computes the reference checksum of every buffer. */
  method Checksum(table: array<nat>, buffer: seq<byte>) returns (r: nat)
    requires table.Length == 256
    requires forall i :: 0 <= i < 256 ==> table[i] == Shifts(i, 8)
    ensures r == Crc(buffer)
  {
    var crc := ONES;
    for i := 0 to |buffer|
      invariant Feed(crc, buffer[i..]) == Feed(ONES, buffer)
    {
      TableStep(crc, buffer[i]);
      assert buffer[i..][1..] == buffer[i + 1..];
      crc := Xor(crc / 256, table[Xor(crc, buffer[i] as nat) % 256]);
    }
    r := Xor(crc, ONES);
  }

  // ----- Bursts of up to four bytes

  predicate Word(c: nat) {
    Bits.Fits(c, 32)
  }

  lemma ConstantsAreWords()
    ensures Word(POLY) && Word(ONES)
  {
    assert POLY < 0x1_0000_0000 && ONES < 0x1_0000_0000;
    WordBound(POLY);
    WordBound(ONES);
  }

  lemma WordBound(x: nat)
    ensures Word(x) <==> x < 0x1_0000_0000
  {
    FitsIsBound(x, 32);
    Powers();
  }

  lemma {:induction false} ShrXor(a: nat, b: nat, n: nat)
    ensures Shr(Xor(a, b), n) == Xor(Shr(a, n), Shr(b, n))
    decreases n
  {
    if n > 0 {
      XorHalves(a, b);
      ShrXor(a / 2, b / 2, n - 1);
    }
  }

  lemma XorCancel(a: nat, b: nat, c: nat)
    requires Xor(a, b) == Xor(a, c)
    ensures b == c
  {
    XorAssoc(a, a, b);
    XorAssoc(a, a, c);
    XorSelf(a);
  }

  /** The bit shifted out is readable from the top of the register, so nothing is forgotten. */
  lemma ShiftTop(c: nat)
    requires Word(c)
    ensures Word(Shift(c)) && Shr(Shift(c), 31) == c % 2
  {
    ConstantsAreWords();
    assert Shr(c, 32) == Shr(c / 2, 31);
    FitsMore(c / 2, 31, 32);
    if c % 2 == 1 {
      XorFits(POLY, c / 2, 32);
      ShrXor(POLY, c / 2, 31);
      PolyTop();
    }
  }

  lemma PolyTop()
    ensures Shr(POLY, 31) == 1
  {
    Powers();
    ShrIsOne(POLY, 31);
  }

  lemma {:induction false} ShrIsOne(x: nat, n: nat)
    requires Pow2(n) <= x < 2 * Pow2(n)
    ensures Shr(x, n) == 1
    decreases n
  {
    if n > 0 {
      ShrIsOne(x / 2, n - 1);
    }
  }

  lemma ShiftInjective(a: nat, b: nat)
    requires Word(a) && Word(b) && Shift(a) == Shift(b)
    ensures a == b
  {
    ShiftTop(a);
    ShiftTop(b);
    if a % 2 == 1 {
      XorCancel(POLY, a / 2, b / 2);
    }
  }

  lemma {:induction false} ShiftsInjective(a: nat, b: nat, n: nat)
    requires Word(a) && Word(b) && Shifts(a, n) == Shifts(b, n)
    ensures a == b
    decreases n
  {
    if n > 0 {
      ShiftTop(a);
      ShiftTop(b);
      ShiftsInjective(Shift(a), Shift(b), n - 1);
      ShiftInjective(a, b);
    }
  }

  lemma {:induction false} ShiftsWord(c: nat, n: nat)
    requires Word(c)
    ensures Word(Shifts(c, n))
    decreases n
  {
    if n > 0 {
      ShiftTop(c);
      ShiftsWord(Shift(c), n - 1);
    }
  }

  lemma ByteWord(b: byte)
    ensures Word(b as nat)
  {
    WordBound(b as nat);
  }

  lemma {:induction false} FeedWord(c: nat, data: seq<byte>)
    requires Word(c)
    ensures Word(Feed(c, data))
    decreases data
  {
    if data != [] {
      ByteWord(data[0]);
      XorFits(c, data[0] as nat, 32);
      ShiftsWord(Xor(c, data[0] as nat), 8);
      FeedWord(Shifts(Xor(c, data[0] as nat), 8), data[1..]);
    }
  }

  lemma {:induction false} FeedConcat(c: nat, a: seq<byte>, b: seq<byte>)
    ensures Feed(c, a + b) == Feed(Feed(c, a), b)
    decreases a
  {
    if a == [] {
      assert a + b == b;
    } else {
      assert (a + b)[1..] == a[1..] + b;
      FeedConcat(Shifts(Xor(c, a[0] as nat), 8), a[1..], b);
    }
  }

  /** Different registers stay different while the same bytes come in. */
  lemma {:induction false} FeedInjective(c: nat, d: nat, data: seq<byte>)
    requires Word(c) && Word(d) && Feed(c, data) == Feed(d, data)
    ensures c == d
    decreases data
  {
    if data != [] {
      var b := data[0] as nat;
      ByteWord(data[0]);
      XorFits(c, b, 32);
      XorFits(d, b, 32);
      ShiftsWord(Xor(c, b), 8);
      ShiftsWord(Xor(d, b), 8);
      FeedInjective(Shifts(Xor(c, b), 8), Shifts(Xor(d, b), 8), data[1..]);
      ShiftsInjective(Xor(c, b), Xor(d, b), 8);
      XorComm(c, b);
      XorComm(d, b);
      XorCancel(b, c, d);
    }
  }

  /** A block of bytes enters the register as one little-endian number. */
  lemma {:induction false} FeedBlock(c: nat, data: seq<byte>)
    ensures Feed(c, data) == Shifts(Xor(c, FromLe(data)), 8 * |data|)
    decreases data
  {
    hide Shifts, Xor;
    if data == [] {
      assert Xor(c, 0) == c && Shifts(c, 0) == c by {
        XorZeroRight(c);
      }
    } else {
      FeedBlock(Shifts(Xor(c, data[0] as nat), 8), data[1..]);
      BlockStep(c, data[0], FromLe(data[1..]), 8 * |data[1..]|);
    }
  }

  lemma XorZeroRight(c: nat)
    ensures Xor(c, 0) == c && Shifts(c, 0) == c
  {
  }

  lemma BlockStep(c: nat, b: byte, rest: nat, n: nat)
    ensures Shifts(Xor(Shifts(Xor(c, b as nat), 8), rest), n) == Shifts(Xor(c, b as nat + 256 * rest), 8 + n)
  {
    hide *;
    var s := Xor(c, b as nat);
    ShiftsOutZeros(rest);
    ShiftsLinear(s, 256 * rest, 8);
    ShiftsAdd(Xor(s, 256 * rest), 8, n);
    XorAssoc(c, b as nat, 256 * rest);
    XorSplit(b as nat, rest);
  }

  /** Two registers fed with different blocks of at most four bytes differ afterwards. */
  lemma BlockInjective(c: nat, a: seq<byte>, b: seq<byte>)
    requires Word(c) && |a| == |b| <= 4 && Feed(c, a) == Feed(c, b)
    ensures a == b
  {
    FeedBlock(c, a);
    FeedBlock(c, b);
    BlockWord(a);
    BlockWord(b);
    XorFits(c, FromLe(a), 32);
    XorFits(c, FromLe(b), 32);
    ShiftsInjective(Xor(c, FromLe(a)), Xor(c, FromLe(b)), 8 * |a|);
    XorCancel(c, FromLe(a), FromLe(b));
    LeOfFromLe(a);
    LeOfFromLe(b);
  }

  lemma BlockWord(a: seq<byte>)
    requires |a| <= 4
    ensures Word(FromLe(a))
  {
    LeOfFromLe(a);
    BytesFitMore(FromLe(a), |a|, 4);
    FitsWidths(FromLe(a));
    WordBound(FromLe(a));
  }

  lemma {:induction false} BytesFitMore(x: nat, m: nat, n: nat)
    requires Bytes.Fits(x, m) && m <= n
    ensures Bytes.Fits(x, n)
    decreases n
  {
    if m > 0 {
      BytesFitMore(x / 256, m - 1, n - 1);
    } else if n > 0 {
      BytesFitMore(x / 256, 0, n - 1);
    }
  }

  /** The two buffers differ at most in the four bytes from position `i` on. */
  ghost predicate DifferWithinFour(a: seq<byte>, b: seq<byte>, i: nat) {
    |a| == |b| && forall j :: 0 <= j < |a| && !(i <= j < i + 4) ==> a[j] == b[j]
  }

  /** Every change confined to four consecutive bytes changes the checksum. */
  lemma BurstDetected(a: seq<byte>, b: seq<byte>, i: nat)
    requires DifferWithinFour(a, b, i) && a != b
    ensures Crc(a) != Crc(b)
  {
    var lo := if i <= |a| then i else |a|;
    var hi := if i + 4 <= |a| then i + 4 else |a|;
    assert a[..lo] == b[..lo] && a[hi..] == b[hi..];
    assert a == a[..lo] + (a[lo..hi] + a[hi..]) && b == b[..lo] + (b[lo..hi] + b[hi..]);
    if Crc(a) == Crc(b) {
      ConstantsAreWords();
      var c := Feed(ONES, a[..lo]);
      FeedWord(ONES, a[..lo]);
      FeedConcat(ONES, a[..lo], a[lo..hi] + a[hi..]);
      FeedConcat(ONES, b[..lo], b[lo..hi] + b[hi..]);
      FeedConcat(c, a[lo..hi], a[hi..]);
      FeedConcat(c, b[lo..hi], b[hi..]);
      XorComm(Feed(ONES, a), ONES);
      XorComm(Feed(ONES, b), ONES);
      XorCancel(ONES, Feed(ONES, a), Feed(ONES, b));
      FeedWord(c, a[lo..hi]);
      FeedWord(c, b[lo..hi]);
      FeedInjective(Feed(c, a[lo..hi]), Feed(c, b[lo..hi]), a[hi..]);
      BlockInjective(c, a[lo..hi], b[lo..hi]);
    }
  }

  lemma CrcIsWord(data: seq<byte>)
    ensures Crc(data) < U32
  {
    ConstantsAreWords();
    FeedWord(ONES, data);
    XorFits(Feed(ONES, data), ONES, 32);
    WordBound(Crc(data));
  }

  // ----- The constants

  /** The generator x^32 + x^26 + x^23 + x^22 + x^16 + x^12 + x^11 + x^10 + x^8 + x^7 + x^5 + x^4 + x^2 + x + 1, its
      highest power left out and the others in reversed order. */
  lemma GeneratorIs()
    ensures POLY == Pow2(31 - 26) + Pow2(31 - 23) + Pow2(31 - 22) + Pow2(31 - 16) + Pow2(31 - 12) + Pow2(31 - 11)
                    + Pow2(31 - 10) + Pow2(31 - 8) + Pow2(31 - 7) + Pow2(31 - 5) + Pow2(31 - 4) + Pow2(31 - 2)
                    + Pow2(31 - 1) + Pow2(31 - 0)
  {
    hide Pow2;
    SmallPowers();
    Powers();
    Pow2Add(8, 7);
    Pow2Add(8, 8);
    Pow2Add(16, 3);
    Pow2Add(16, 4);
    Pow2Add(16, 5);
    Pow2Add(16, 7);
    Pow2Add(16, 8);
    Pow2Add(24, 2);
    Pow2Add(24, 3);
    Pow2Add(24, 5);
    Pow2Add(24, 6);
  }

  lemma SmallPowers()
    ensures Pow2(2) == 4 && Pow2(3) == 8 && Pow2(4) == 16 && Pow2(5) == 32 && Pow2(6) == 64 && Pow2(7) == 128
    ensures Pow2(8) == 256 && Pow2(9) == 512
  {
  }

  lemma {:induction false} XorOnes(x: nat, n: nat)
    requires x < Pow2(n)
    ensures Xor(Pow2(n) - 1, x) == Pow2(n) - 1 - x
  {
    if n > 0 && x > 0 {
      var a, h := Pow2(n) - 1, Pow2(n - 1);
      assert a % 2 == 1 && a / 2 == h - 1 && a > 0;
      XorOnes(x / 2, n - 1);
      assert Xor(a, x) == (if x % 2 == 0 then 1 else 0) + 2 * Xor(a / 2, x / 2);
    }
  }

  lemma EightShifts()
    ensures Shifts(0xFFFF_FF00, 8) == 0x00FF_FFFF
  {
    hide Xor;
  }

  lemma Complements()
    ensures Xor(ONES, 0xFF) == 0xFFFF_FF00 && Xor(0x00FF_FFFF, ONES) == 0xFF00_0000
  {
    hide Xor, Pow2;
    Powers();
    XorOnes(0xFF, 32);
    XorOnes(0x00FF_FFFF, 32);
    XorComm(0x00FF_FFFF, ONES);
  }

  /** The register starts with all ones and is complemented at the end. */
  lemma AllOnesByte()
    ensures Crc([0xFF]) == 0xFF00_0000
  {
    hide Shifts, Xor;
    EightShifts();
    Complements();
    var data: seq<byte> := [0xFF];
    assert data[1..] == [];
    assert Feed(ONES, data) == 0x00FF_FFFF;
  }
}
