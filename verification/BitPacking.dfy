/** Packing equally wide words into bytes and back, least significant bit first, as the loops of the
    bit-packing and frame-of-reference codecs do it with a bit buffer of a given machine width. */
module BitPacking {
  import opened Core
  import opened Bits

  function BytesBits(s: seq<byte>): seq<bool> {
    if s == [] then [] else ToBits(s[0] as nat, 8) + BytesBits(s[1..])
  }

  function WordBits(ws: seq<nat>, n: nat): seq<bool> {
    if ws == [] then [] else ToBits(ws[0], n) + WordBits(ws[1..], n)
  }

  /** The first `k` groups of `n` bits, as numbers. */
  function Chunks(s: seq<bool>, n: nat, k: nat): seq<nat> {
    if k == 0 || |s| < n then [] else [FromBits(s[..n])] + Chunks(s[n..], n, k - 1)
  }

  lemma {:induction false} BytesBitsAppend(s: seq<byte>, b: byte)
    ensures BytesBits(s + [b]) == BytesBits(s) + ToBits(b as nat, 8)
  {
    hide ToBits;
    if s == [] {
      assert (s + [b])[1..] == [];
    } else {
      BytesBitsAppend(s[1..], b);
      assert (s + [b])[1..] == s[1..] + [b];
    }
  }

  lemma {:induction false} BytesBitsSize(s: seq<byte>)
    ensures |BytesBits(s)| == 8 * |s|
  {
    hide ToBits;
    if s != [] {
      BytesBitsSize(s[1..]);
    }
  }

  lemma {:induction false} WordBitsAppend(ws: seq<nat>, w: nat, n: nat)
    ensures WordBits(ws + [w], n) == WordBits(ws, n) + ToBits(w, n)
  {
    hide ToBits;
    if ws == [] {
      assert (ws + [w])[1..] == [];
    } else {
      WordBitsAppend(ws[1..], w, n);
      assert (ws + [w])[1..] == ws[1..] + [w];
    }
  }

  lemma {:induction false} WordBitsSize(ws: seq<nat>, n: nat)
    ensures |WordBits(ws, n)| == |ws| * n
  {
    hide ToBits;
    if ws != [] {
      WordBitsSize(ws[1..], n);
      assert |ws| * n == n + |ws[1..]| * n;
    }
  }

  /** Cutting the packed bits into groups gives the words back. */
  lemma {:induction false} ChunksOfWords(ws: seq<nat>, n: nat, pad: seq<bool>)
    requires forall i :: 0 <= i < |ws| ==> Fits(ws[i], n)
    ensures Chunks(WordBits(ws, n) + pad, n, |ws|) == ws
  {
    hide ToBits, FromBits, Fits;
    if ws != [] {
      var s := WordBits(ws, n) + pad;
      assert s[..n] == ToBits(ws[0], n);
      assert s[n..] == WordBits(ws[1..], n) + pad;
      FromToBits(ws[0], n);
      ChunksOfWords(ws[1..], n, pad);
    }
  }

  lemma {:induction false} ToBitsOfLow(x: nat, n: nat)
    ensures ToBits(Low(x, n), n) == ToBits(x, n)
  {
    if n > 0 {
      ToBitsOfLow(x / 2, n - 1);
      assert Low(x, n) / 2 == Low(x / 2, n - 1);
    }
  }

  /** `x as u8`. */
  function Truncated(x: nat): (b: byte)
    ensures ToBits(b as nat, 8) == ToBits(x, 8)
  {
    FromToBits(x, 8);
    FitsIsBound(Low(x, 8), 8);
    Powers();
    ToBitsOfLow(x, 8);
    Low(x, 8) as byte
  }

  /** The low byte of the buffer comes off its front. */
  lemma Emit(buf: nat, count: nat)
    requires count >= 8 && Fits(buf, count)
    ensures ToBits(buf, count) == ToBits(Truncated(buf) as nat, 8) + ToBits(Shr(buf, 8), count - 8)
    ensures Fits(Shr(buf, 8), count - 8)
  {
    ToBitsSplit(buf, 8, count - 8);
    FitsShr(buf, 8, count - 8);
  }

  /** Everything written so far: finished bytes, then the buffered bits. */
  ghost function Held(out: seq<byte>, buf: nat, count: nat): seq<bool> {
    BytesBits(out) + ToBits(buf, count)
  }

  lemma HeldAfterEmit(out: seq<byte>, buf: nat, count: nat)
    requires count >= 8 && Fits(buf, count)
    ensures Held(out + [Truncated(buf)], Shr(buf, 8), count - 8) == Held(out, buf, count)
    ensures Fits(Shr(buf, 8), count - 8)
  {
    hide ToBits, Truncated, Shr, Fits, BytesBits;
    Emit(buf, count);
    BytesBitsAppend(out, Truncated(buf));
    var a, b, c := BytesBits(out), ToBits(Truncated(buf) as nat, 8), ToBits(Shr(buf, 8), count - 8);
    assert (a + b) + c == a + (b + c);
  }

  lemma HeldAfterWord(out: seq<byte>, buf: nat, count: nat, w: nat, n: nat, width: nat)
    requires Fits(buf, count) && Fits(w, n) && count + n <= width
    ensures var r := Or(buf, Low(Shl(w, count), width));
            Fits(r, count + n) && Held(out, r, count + n) == Held(out, buf, count) + ToBits(w, n)
  {
    hide ToBits, Or, Low, Shl, Fits, BytesBits;
    Accumulate(buf, w, count, n, width);
    var a, b, c := BytesBits(out), ToBits(buf, count), ToBits(w, n);
    assert (a + b) + c == a + (b + c);
  }

  /** A last partial byte is padded with zero bits. */
  lemma HeldAfterFlush(out: seq<byte>, buf: nat, count: nat)
    requires count <= 8 && Fits(buf, count)
    ensures Held(out, buf, count) <= BytesBits(out + [Truncated(buf)])
  {
    hide Fits, Shr;
    BytesBitsAppend(out, Truncated(buf));
    ToBitsSplit(buf, count, 8 - count);
  }

  /** The packing loop. The bit buffer never needs more than `bits + 7 <= width` bits. */
  method Pack(words: seq<nat>, bits: nat, width: nat) returns (out: seq<byte>)
    requires 0 < bits && bits + 7 <= width
    requires forall i :: 0 <= i < |words| ==> Fits(words[i], bits)
    ensures WordBits(words, bits) <= BytesBits(out)
    ensures |out| == CeilDiv(|words| * bits, 8)
  {
    hide Held, Fits, ToBits, Shr, Or, Low, Shl, Truncated, BytesBits;
    out := [];
    var buf, count := 0, 0;
    HeldNothing();
    for i := 0 to |words|
      invariant 0 <= count < 8 && buf >= 0 && Fits(buf, count)
      invariant Held(out, buf, count) == WordBits(words[..i], bits)
    {
      HeldAfterWord(out, buf, count, words[i], bits, width);
      WordBitsAppend(words[..i], words[i], bits);
      assert words[..i + 1] == words[..i] + [words[i]];
      buf := Or(buf, Low(Shl(words[i], count), width));
      count := count + bits;
      while count >= 8
        invariant 0 <= count && buf >= 0 && Fits(buf, count)
        invariant Held(out, buf, count) == WordBits(words[..i + 1], bits)
      {
        HeldAfterEmit(out, buf, count);
        out := out + [Truncated(buf)];
        buf := Shr(buf, 8);
        count := count - 8;
      }
    }
    assert words[..|words|] == words;
    HeldSize(out, buf, count);
    WordBitsSize(words, bits);
    if count > 0 {
      HeldAfterFlush(out, buf, count);
      out := out + [Truncated(buf)];
    } else {
      HeldExactly(out, buf);
    }
  }

  lemma HeldNothing()
    ensures Held([], 0, 0) == [] && Fits(0, 0)
  {
  }

  lemma HeldExactly(out: seq<byte>, buf: nat)
    ensures Held(out, buf, 0) == BytesBits(out)
  {
  }

  lemma HeldSize(out: seq<byte>, buf: nat, count: nat)
    ensures |Held(out, buf, count)| == 8 * |out| + count
  {
    BytesBitsSize(out);
  }

  // ----- Unpacking

  /** The bits still to come: the buffered ones, then the bytes from `i` on. */
  ghost function Ahead(buf: nat, have: nat, packed: seq<byte>, i: nat): seq<bool>
    requires i <= |packed|
  {
    ToBits(buf, have) + BytesBits(packed[i..])
  }

  lemma AheadAfterByte(buf: nat, have: nat, packed: seq<byte>, i: nat, width: nat)
    requires i < |packed| && Fits(buf, have) && have + 8 <= width
    ensures var r := Or(buf, Low(Shl(packed[i] as nat, have), width));
            Fits(r, have + 8) && Ahead(r, have + 8, packed, i + 1) == Ahead(buf, have, packed, i)
  {
    hide ToBits, Or, Low, Shl, Fits;
    ByteFits(packed[i]);
    Accumulate(buf, packed[i] as nat, have, 8, width);
    assert packed[i..][1..] == packed[i + 1..];
    var a, b, c := ToBits(buf, have), ToBits(packed[i] as nat, 8), BytesBits(packed[i + 1..]);
    assert (a + b) + c == a + (b + c);
  }

  lemma ByteFits(b: byte)
    ensures Fits(b as nat, 8)
  {
    FitsIsBound(b as nat, 8);
    Powers();
  }

  /** Masking and shifting takes the next word off the front. */
  lemma AheadAfterWord(buf: nat, have: nat, packed: seq<byte>, i: nat, n: nat)
    requires i <= |packed| && n <= have && Fits(buf, have)
    ensures var s := Ahead(buf, have, packed, i);
            && |s| >= n
            && And(buf, Pow2(n) - 1) == FromBits(s[..n])
            && Ahead(Shr(buf, n), have - n, packed, i) == s[n..]
            && Fits(Shr(buf, n), have - n)
  {
    hide ToBits, FromBits, Fits, BytesBits;
    AndMask(buf, n);
    FromToBits(buf, n);
    ToBitsSplit(buf, n, have - n);
    FitsShr(buf, n, have - n);
    var s := Ahead(buf, have, packed, i);
    assert s[..n] == ToBits(buf, n);
    assert s[n..] == ToBits(Shr(buf, n), have - n) + BytesBits(packed[i..]);
  }

  lemma AheadSize(buf: nat, have: nat, packed: seq<byte>, i: nat)
    requires i <= |packed|
    ensures |Ahead(buf, have, packed, i)| == have + 8 * (|packed| - i)
  {
    BytesBitsSize(packed[i..]);
  }

  /** The refill loop: bytes are taken in until a whole word is buffered. */
  method Refill(packed: seq<byte>, bits: nat, width: nat, buf0: nat, have0: nat, i0: nat)
    returns (buf: nat, have: nat, i: nat)
    requires i0 <= |packed| && Fits(buf0, have0) && have0 < 8 && bits + 7 <= width
    requires |Ahead(buf0, have0, packed, i0)| >= bits
    ensures i <= |packed| && Fits(buf, have) && bits <= have && have - bits < 8
    ensures Ahead(buf, have, packed, i) == Ahead(buf0, have0, packed, i0)
  {
    hide Ahead, Fits, Or, Low, Shl;
    buf, have, i := buf0, have0, i0;
    while have < bits && i < |packed|
      invariant i <= |packed| && Fits(buf, have) && (have - bits < 8 || have == have0)
      invariant Ahead(buf, have, packed, i) == Ahead(buf0, have0, packed, i0)
      decreases |packed| - i
    {
      AheadAfterByte(buf, have, packed, i, width);
      buf := Or(buf, Low(Shl(packed[i] as nat, have), width));
      i := i + 1;
      have := have + 8;
    }
    AheadSize(buf, have, packed, i);
  }

  /** Enough bits are ahead for `k` more words. */
  ghost predicate Enough(s: seq<bool>, k: nat, bits: nat) {
    |s| >= k * bits
  }

  lemma EnoughForOne(s: seq<bool>, k: nat, bits: nat)
    requires Enough(s, k, bits) && k > 0
    ensures |s| >= bits && Enough(s[bits..], k - 1, bits)
  {
    assert k * bits == bits + (k - 1) * bits;
    assert (k - 1) * bits >= 0;
  }

  lemma EnoughAtStart(packed: seq<byte>, count: nat, bits: nat)
    requires |packed| == CeilDiv(count * bits, 8)
    ensures Enough(BytesBits(packed), count, bits)
  {
    BytesBitsSize(packed);
  }

  lemma ChunksNone(s: seq<bool>, n: nat)
    ensures Chunks(s, n, 0) == []
  {
  }

  lemma ChunksStep(s: seq<bool>, n: nat, k: nat)
    requires k > 0 && |s| >= n
    ensures Chunks(s, n, k) == [FromBits(s[..n])] + Chunks(s[n..], n, k - 1)
  {
  }

  /** The unpacking loop. */
  method Unpack(packed: seq<byte>, bits: nat, count: nat, width: nat) returns (words: seq<nat>)
    requires 0 < bits && bits + 7 <= width && |packed| == CeilDiv(count * bits, 8)
    ensures words == Chunks(BytesBits(packed), bits, count) && |words| == count
  {
    hide Ahead, Fits, And, Shr, BytesBits, FromBits, Enough, Chunks, CeilDiv;
    words := [];
    var buf, have, i := 0, 0, 0;
    AheadStart(packed);
    EnoughAtStart(packed, count, bits);
    for k := 0 to count
      invariant 0 <= i <= |packed| && buf >= 0 && 0 <= have < 8 && Fits(buf, have)
      invariant Enough(Ahead(buf, have, packed, i), count - k, bits)
      invariant |words| == k
      invariant words + Chunks(Ahead(buf, have, packed, i), bits, count - k) == Chunks(BytesBits(packed), bits, count)
    {
      EnoughForOne(Ahead(buf, have, packed, i), count - k, bits);
      ChunksStep(Ahead(buf, have, packed, i), bits, count - k);
      buf, have, i := Refill(packed, bits, width, buf, have, i);
      AheadAfterWord(buf, have, packed, i, bits);
      words := words + [And(buf, Pow2(bits) - 1)];
      buf := Shr(buf, bits);
      have := have - bits;
    }
    ChunksNone(Ahead(buf, have, packed, i), bits);
  }

  lemma AheadStart(packed: seq<byte>)
    ensures Ahead(0, 0, packed, 0) == BytesBits(packed) && Fits(0, 0)
  {
    assert packed[0..] == packed;
  }

  /** The smallest width in which `x` fits: word size minus leading zeros. */
  function BitLen(x: nat): nat {
    if x == 0 then 0 else 1 + BitLen(x / 2)
  }

  lemma {:induction false} BitLenFits(x: nat, y: nat)
    requires x <= y
    ensures Fits(x, BitLen(y))
  {
    if y > 0 {
      BitLenFits(x / 2, y / 2);
    }
  }

  lemma {:induction false} BitLenBound(x: nat, n: nat)
    requires Fits(x, n)
    ensures BitLen(x) <= n
  {
    if x > 0 {
      BitLenBound(x / 2, n - 1);
    }
  }
}
