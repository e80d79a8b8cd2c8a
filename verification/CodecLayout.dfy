/** What the bytes and bits of the codecs' bodies mean. */
module CodecLayout {
  import opened Core
  import opened Bits
  import opened Bytes
  import opened BitPacking
  import opened CodecFrame
  import CodecPack
  import CodecXor

  // ----- Bits

  /** Bit `i` of a number is its digit of weight two to the power of `i`. */
  lemma {:induction false} BitOfNumber(x: nat, n: nat, i: nat)
    requires i < n
    ensures ToBits(x, n)[i] <==> x / Pow2(i) % 2 == 1
  {
    if i > 0 {
      BitOfNumber(x / 2, n - 1, i - 1);
      Halve(x, Pow2(i - 1));
    }
  }

  lemma Halve(x: nat, p: nat)
    requires p > 0
    ensures x / (2 * p) == x / 2 / p
  {
    var q, r := x / 2 / p, x / 2 % p;
    assert x / 2 == p * q + r;
    assert x == 2 * p * q + (2 * r + x % 2);
    Quotient(x, 2 * p, q, 2 * r + x % 2);
  }

  lemma Quotient(x: nat, p: nat, q: nat, r: nat)
    requires p > 0 && x == p * q + r && r < p
    ensures x / p == q
  {
    var d, m := x / p, x % p;
    assert x == p * d + m && m < p;
    if d < q {
      OneMore(p, d, q);
    } else if d > q {
      OneMore(p, q, d);
    }
  }

  lemma OneMore(p: nat, a: nat, b: nat)
    requires a < b
    ensures p * a + p <= p * b
  {
    var k := b - a - 1;
    assert p * b == p * a + p + p * k;
  }

  /** The bits of a byte string: byte after byte, each from its least significant bit. */
  lemma {:induction false} BitOfBytes(s: seq<byte>, j: nat, i: nat)
    requires j < |s| && i < 8
    ensures |BytesBits(s)| == 8 * |s| && (BytesBits(s)[8 * j + i] <==> s[j] as nat / Pow2(i) % 2 == 1)
  {
    hide ToBits, Pow2;
    BytesBitsSize(s);
    if j == 0 {
      BitOfNumber(s[0] as nat, 8, i);
    } else {
      BitOfBytes(s[1..], j - 1, i);
      assert s[1..][j - 1] == s[j];
    }
  }

  // ----- XOR coding

  /** Trailing zeros are counted up to 31. */
  lemma TrailingCapped(x: nat)
    requires 0 < x
    ensures var trail := CodecXor.Trailing(x);
            trail <= 31 && x % Pow2(trail) == 0 && (trail < 31 ==> x / Pow2(trail) % 2 == 1)
  {
    hide Pow2, CodecXor.TrailingZeros;
    TrailingMeans(x, CodecXor.TrailingZeros(x), CodecXor.Trailing(x));
  }

  /** No difference is one zero bit. */
  lemma NoDifference()
    ensures Bits.Fits(0, 64) && CodecXor.DiffBits(0) == [false]
  {
    hide Bits.Fits;
    FitsIsBound(0, 64);
  }

  /** A difference that is not zero: a one, five bits of leading zeros, six bits of length, the significant bits. */
  lemma DifferenceBits(x: nat)
    requires 0 < x && Bits.Fits(x, 64)
    ensures var lead, trail := CodecXor.Leading(x), CodecXor.Trailing(x);
            var r, n := CodecXor.DiffBits(x), 64 - lead - trail;
            && n >= 0 && |r| == 12 + n && r[0] && r[1..6] == ToBits(lead, 5) && r[6..12] == ToBits(n, 6)
            && r[12..] == ToBits(Shr(x, trail), n)
  {
    hide ToBits, Shr, Bits.Fits, CodecXor.Leading, CodecXor.Trailing;
    CodecXor.LengthParts(x);
    var lead, trail, n := CodecXor.Leading(x), CodecXor.Trailing(x), CodecXor.Length(x);
    FourParts(ToBits(lead, 5), ToBits(n, 6), ToBits(Shr(x, trail), n));
  }

  lemma FourParts(a: seq<bool>, b: seq<bool>, c: seq<bool>)
    requires |a| == 5 && |b| == 6
    ensures var r := [true] + (a + (b + c)); r[0] && r[1..6] == a && r[6..12] == b && r[12..] == c
  {
  }

  lemma {:induction false} BitLenMeans(x: nat)
    requires x > 0
    ensures BitLen(x) > 0 && Pow2(BitLen(x) - 1) <= x < Pow2(BitLen(x))
  {
    if x > 1 {
      BitLenMeans(x / 2);
    } else {
      assert BitLen(1) == 1 + BitLen(0);
      assert Pow2(0) == 1 && Pow2(1) == 2;
    }
  }

  lemma {:induction false} PowersGrow(m: nat, n: nat)
    requires m <= n
    ensures Pow2(m) <= Pow2(n)
  {
    if m < n {
      PowersGrow(m, n - 1);
    }
  }

  /** Leading zeros of the 64-bit word are counted up to 31. */
  lemma LeadingCapped(x: nat)
    requires 0 < x && Bits.Fits(x, 64)
    ensures var lead := CodecXor.Leading(x);
            lead <= 31 && x < Pow2(64 - lead) && (lead < 31 ==> Pow2(63 - lead) <= x)
  {
    hide Pow2, BitLen, Bits.Fits;
    BitLenMeans(x);
    BitLenBound(x, 64);
    var lead := CodecXor.Leading(x);
    PowersGrow(BitLen(x), 64 - lead);
  }

  lemma {:induction false} TrailingMeans(x: nat, z: nat, t: nat)
    requires x > 0 && z == CodecXor.TrailingZeros(x) && t <= z
    ensures x % Pow2(t) == 0 && (t == z ==> x / Pow2(t) % 2 == 1)
    decreases x
  {
    if t > 0 {
      TrailingMeans(x / 2, z - 1, t - 1);
      var p := Pow2(t - 1);
      Halve(x, p);
      Remainder(x, p);
    } else {
      assert Pow2(0) == 1;
    }
  }

  lemma Remainder(x: nat, p: nat)
    requires p > 0 && x % 2 == 0 && x / 2 % p == 0
    ensures x % (2 * p) == 0
  {
    var q := x / 2 / p;
    assert x / 2 == p * q;
    assert x == 2 * p * q;
    Quotient(x, 2 * p, q, 0);
    assert x == 2 * p * (x / (2 * p)) + x % (2 * p);
  }

  /** The body: how many words, the first word, the stream of the others, and the bytes left over. */
  lemma XorBody(ws: seq<nat>, packed: seq<byte>, tail: seq<byte>)
    requires ws != []
    ensures CodecXor.Body(ws, packed, tail) == Le(|ws|, 4) + Le(ws[0], 8) + packed + tail
  {
    CodecXor.BodyAssoc(ws, packed, tail);
  }

  // ----- Which bodies are refused

  lemma {:induction false} ChunkCount(s: seq<bool>, n: nat, k: nat)
    requires |s| >= k * n
    ensures |Chunks(s, n, k)| == k
  {
    hide FromBits;
    if k > 0 {
      assert k * n == n + (k - 1) * n;
      ChunkCount(s[n..], n, k - 1);
    }
  }

  lemma PackedWords(packed: seq<byte>, bits: nat, count: nat)
    requires |packed| == CodecPack.PackedLen(count, bits)
    ensures |Chunks(BytesBits(packed), bits, count)| == count
  {
    hide Chunks, BytesBits;
    BytesBitsSize(packed);
    ChunkCount(BytesBits(packed), bits, count);
  }

  /** What bit-packing does with any body: too short, too wide, too many words for the length, or not enough bytes
      for the packed words and the rest; anything else decodes to the expected length. */
  lemma BitPackOutcome(body: seq<byte>, len: nat)
    ensures |body| < 5 ==> CodecPack.BitPackDecoded(body, len) == Err(Incomplete(5, |body|))
    ensures |body| >= 5 && body[0] > 32 ==> CodecPack.BitPackDecoded(body, len) == Err(InvalidData)
    ensures |body| >= 5 && body[0] <= 32 ==>
              var count := Quad(body[1], body[2], body[3], body[4]);
              var need := 5 + CeilDiv(count * body[0] as nat, 8) + (len - 4 * count);
              var r := CodecPack.BitPackDecoded(body, len);
              && (4 * count > len ==> r == Err(InvalidData))
              && (4 * count <= len && |body| < need ==> r == Err(Incomplete(need, |body|)))
              && (4 * count <= len && |body| >= need ==> r.Ok? && |r.value| == len)
  {
    hide Chunks, BytesBits, Get, CodecPack.BitPackRest;
    if |body| >= 5 && body[0] <= 32 {
      FourBytes(body, 1);
      if 4 * Get(body, 1, 4) <= len {
        BitPackRestOutcome(body[0] as nat, Get(body, 1, 4), body[5..], len);
      }
    }
  }

  lemma BitPackRestOutcome(bits: nat, count: nat, rest: seq<byte>, len: nat)
    requires 4 * count <= len
    ensures var need := CeilDiv(count * bits, 8) + (len - 4 * count);
            var r := CodecPack.BitPackRest(bits, count, rest, len);
            && (|rest| < need ==> r == Err(Incomplete(5 + need, 5 + |rest|)))
            && (|rest| >= need ==> r.Ok? && |r.value| == len)
  {
    hide Chunks, BytesBits, CodecPack.LeBytes, CeilDiv;
    var at := CodecPack.PackedLen(count, bits);
    if |rest| >= at + (len - 4 * count) {
      PackedWords(rest[..at], bits, count);
      CodecPack.LeBytesSize(Chunks(BytesBits(rest[..at]), bits, count), 4);
    }
  }

  /** The same for frame-of-reference coding, where too many words for the length is a length mismatch. */
  lemma ForOutcome(body: seq<byte>, len: nat)
    ensures |body| < 13 ==> CodecPack.ForDecoded(body, len) == Err(Incomplete(13, |body|))
    ensures |body| >= 13 && body[8] > 64 ==> CodecPack.ForDecoded(body, len) == Err(InvalidData)
    ensures |body| >= 13 && body[8] <= 64 ==>
              var count := Quad(body[9], body[10], body[11], body[12]);
              var rest := if 8 * count <= len then len - 8 * count else 0;
              var need := 13 + CeilDiv(count * body[8] as nat, 8) + rest;
              var r := CodecPack.ForDecoded(body, len);
              && (|body| < need ==> r == Err(Incomplete(need, |body|)))
              && (|body| >= need && 8 * count > len ==> r == Err(LengthMismatch(len, 8 * count)))
              && (|body| >= need && 8 * count <= len ==> r.Ok? && |r.value| == len)
  {
    hide Chunks, BytesBits, Get, CodecPack.ForRest;
    if |body| >= 13 && body[8] <= 64 {
      FourBytes(body, 9);
      ForRestOutcome(Get(body, 0, 8), body[8] as nat, Get(body, 9, 4), body[13..], len);
    }
  }

  lemma ForRestOutcome(base: nat, bits: nat, count: nat, rest: seq<byte>, len: nat)
    ensures var left := if 8 * count <= len then len - 8 * count else 0;
            var need := CeilDiv(count * bits, 8) + left;
            var r := CodecPack.ForRest(base, bits, count, rest, len);
            && (|rest| < need ==> r == Err(Incomplete(13 + need, 13 + |rest|)))
            && (|rest| >= need && 8 * count > len ==> r == Err(LengthMismatch(len, 8 * count)))
            && (|rest| >= need && 8 * count <= len ==> r.Ok? && |r.value| == len)
  {
    hide Chunks, BytesBits, CodecPack.LeBytes, CeilDiv, CodecPack.Rebased;
    var at := CodecPack.PackedLen(count, bits);
    if |rest| >= at {
      PackedWords(rest[..at], bits, count);
      CodecPack.LeBytesSize(CodecPack.Rebased(Chunks(BytesBits(rest[..at]), bits, count), base), 8);
    }
  }
}
