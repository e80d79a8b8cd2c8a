/** The XOR codec: each 64-bit word as a difference to its predecessor, in a bit stream. */
module CodecXor {
  import opened Core
  import opened Bits
  import opened Bytes
  import opened BitPacking
  import opened BitStream
  import opened CodecFrame
  import opened CodecPack

  function TrailingZeros(x: nat): nat
    requires x > 0
  {
    if x % 2 == 1 then 0 else 1 + TrailingZeros(x / 2)
  }

  /** Leading zeros of a 64-bit word, capped at 31. */
  function Leading(x: nat): nat
    requires Bits.Fits(x, 64)
  {
    BitLenBound(x, 64);
    Min(64 - BitLen(x), 31)
  }

  /** Trailing zeros, capped at 31. */
  function Trailing(x: nat): nat
    requires x > 0
  {
    Min(TrailingZeros(x), 31)
  }

  /** How many bits of the difference are written. */
  function Length(x: nat): nat
    requires x > 0 && Bits.Fits(x, 64)
  {
    64 - Leading(x) - Trailing(x)
  }

  /** The bits written for one difference. The length field has only six bits. */
  ghost function DiffBits(x: nat): (r: seq<bool>)
    requires Bits.Fits(x, 64)
    ensures |r| == if x == 0 then 1 else 12 + Length(x)
  {
    if x == 0 then [false]
    else [true] + (ToBits(Leading(x), 5) + (ToBits(Length(x), 6) + ToBits(Shr(x, Trailing(x)), Length(x))))
  }

  ghost predicate Words(ws: seq<nat>) {
    forall i :: 0 <= i < |ws| ==> Bits.Fits(ws[i], 64)
  }

  ghost function StreamBits(prev: nat, ws: seq<nat>): seq<bool>
    requires Bits.Fits(prev, 64) && Words(ws)
    decreases |ws|
  {
    if ws == [] then []
    else
      XorFits(ws[0], prev, 64);
      DiffBits(Bits.Xor(ws[0], prev)) + StreamBits(ws[0], ws[1..])
  }

  /** Both the highest and the lowest bit of the 64-bit word are set. */
  predicate BothEnds(x: nat) {
    x % 2 == 1 && !Bits.Fits(x, 63)
  }

  /** No difference between consecutive words has both end bits set. */
  ghost predicate NoBothEnds(prev: nat, ws: seq<nat>)
    decreases |ws|
  {
    ws == [] || (!BothEnds(Bits.Xor(ws[0], prev)) && NoBothEnds(ws[0], ws[1..]))
  }

  /** What the decoder makes of a stream: one word and the remaining bits.
      The shift distance is an unsigned byte, and shifting uses its low six bits. */
  ghost function ReadWord(s: seq<bool>, prev: nat): Result<(nat, seq<bool>), CodecError> {
    if s == [] then Err(InvalidData)
    else if !s[0] then Ok((prev, s[1..]))
    else if |s| < 12 then Err(InvalidData)
    else
      var leading, length := FromBits(s[1..6]), FromBits(s[6..12]);
      if |s| < 12 + length then Err(InvalidData)
      else
        var meaningful := FromBits(s[12..12 + length]);
        var trailing := (64 - (leading + length)) % 256;
        Ok((Bits.Xor(prev, Low(Shl(meaningful, trailing % 64), 64)), s[12 + length..]))
  }

  ghost function ReadWords(s: seq<bool>, prev: nat, count: nat): Result<seq<nat>, CodecError>
    decreases count
  {
    if count == 0 then Ok([])
    else
      var r := ReadWord(s, prev);
      if r.Err? then Err(r.error)
      else
        var more := ReadWords(r.value.1, r.value.0, count - 1);
        if more.Err? then more else Ok([r.value.0] + more.value)
  }

  // ----- One difference

  lemma {:induction false} BitLenIsLeast(x: nat, n: nat)
    requires BitLen(x) <= n
    ensures Bits.Fits(x, n)
  {
    if x == 0 {
      ShrZero(n);
    } else {
      BitLenIsLeast(x / 2, n - 1);
    }
  }

  /** The length field overflows exactly when both end bits are set. */
  lemma LengthOverflows(x: nat)
    requires x > 0 && Bits.Fits(x, 64)
    ensures Length(x) == 64 <==> BothEnds(x)
    ensures 2 <= Length(x) <= 64
  {
    BitLenBound(x, 64);
    if Bits.Fits(x, 63) {
      BitLenBound(x, 63);
    } else if BitLen(x) <= 63 {
      BitLenIsLeast(x, 63);
    }
  }

  lemma {:induction false} ShiftBack(x: nat, t: nat)
    requires x > 0 && t <= TrailingZeros(x)
    ensures Shl(Shr(x, t), t) == x
    decreases t
  {
    if t > 0 {
      ShiftBack(x / 2, t - 1);
    }
  }

  lemma MeaningfulFits(x: nat)
    requires x > 0 && Bits.Fits(x, 64)
    ensures Bits.Fits(Shr(x, Trailing(x)), Length(x))
  {
    BitLenBound(x, 64);
    BitLenIsLeast(x, 64 - Leading(x));
    assert 64 - Leading(x) == Trailing(x) + Length(x) by {
      LengthOverflows(x);
    }
    FitsShr(x, Trailing(x), Length(x));
  }

  /** Splitting the header fields off a stream. */
  lemma Fields(a: seq<bool>, b: seq<bool>, c: seq<bool>, rest: seq<bool>)
    requires |a| == 5 && |b| == 6
    ensures var s := [true] + (a + (b + c)) + rest;
            && |s| == 12 + |c| + |rest| && s[0]
            && s[1..6] == a && s[6..12] == b
            && s[12..12 + |c|] == c && s[12 + |c|..] == rest
            && s[12..12] == [] && s[12..] == c + rest
  {
    var s := [true] + (a + (b + c)) + rest;
    assert s == [true] + a + b + c + rest;
    assert s[1..6] == a;
    assert s[6..12] == b;
    assert s[12..] == c + rest;
    assert s[12..12 + |c|] == c;
  }

  lemma SmallFits(x: nat)
    ensures x < 32 ==> Bits.Fits(x, 5)
    ensures x < 64 ==> Bits.Fits(x, 6)
  {
    FitsIsBound(x, 5);
    FitsIsBound(x, 6);
    assert Pow2(5) == 32 && Pow2(6) == 64;
  }

  /** A difference without both end bits is read back, and the stream continues after it. */
  lemma ReadsBack(x: nat, prev: nat, rest: seq<bool>)
    requires Bits.Fits(x, 64) && !BothEnds(x)
    ensures ReadWord(DiffBits(x) + rest, prev) == Ok((Bits.Xor(prev, x), rest))
  {
    if x == 0 {
      assert (DiffBits(x) + rest)[1..] == rest;
      XorLaws(prev, 0);
    } else {
      ReadsBackNonzero(x, prev, rest);
    }
  }

  lemma ReadsBackNonzero(x: nat, prev: nat, rest: seq<bool>)
    requires x > 0 && Bits.Fits(x, 64) && !BothEnds(x)
    ensures ReadWord(DiffBits(x) + rest, prev) == Ok((Bits.Xor(prev, x), rest))
  {
    hide Leading, Trailing, Length, Shr, Shl, Low, Bits.Xor, ToBits, FromBits, Bits.Fits, BothEnds;
    var l, t, n := Leading(x), Trailing(x), Length(x);
    LengthOverflows(x);
    LengthParts(x);
    var a, b, c := ToBits(l, 5), ToBits(n, 6), ToBits(Shr(x, t), n);
    Fields(a, b, c, rest);
    SmallFits(l);
    SmallFits(n);
    FromToBits(l, 5);
    FromToBits(n, 6);
    MeaningfulFits(x);
    FromToBits(Shr(x, t), n);
    ShiftBack(x, t);
    FromToBits(x, 64);
    assert (64 - (l + n)) % 256 % 64 == t;
  }

  lemma LengthParts(x: nat)
    requires x > 0 && Bits.Fits(x, 64)
    ensures Length(x) == 64 - Leading(x) - Trailing(x)
    ensures Leading(x) <= 31 && Trailing(x) <= 31 && Trailing(x) <= TrailingZeros(x)
  {
  }

  /** A difference with both end bits is read back as no difference at all. */
  lemma ReadsNothing(x: nat, prev: nat, rest: seq<bool>)
    requires Bits.Fits(x, 64) && BothEnds(x)
    ensures ReadWord(DiffBits(x) + rest, prev).Ok?
    ensures ReadWord(DiffBits(x) + rest, prev).value.0 == prev
  {
    hide Leading, Trailing, Shr, Bits.Xor, ToBits, FromBits, Bits.Fits;
    LengthOverflows(x);
    LengthParts(x);
    var l, n := Leading(x), Length(x);
    var a, b, c := ToBits(l, 5), ToBits(n, 6), ToBits(Shr(x, Trailing(x)), n);
    Fields(a, b, c, rest);
    SmallFits(l);
    FromToBits(l, 5);
    LengthFieldIsZero();
    FromNoBits();
    ShlZero((64 - l) % 256 % 64);
    LowZero(64);
    assert Bits.Xor(prev, 0) == prev by { XorLaws(prev, 0); }
  }

  lemma LengthFieldIsZero()
    ensures FromBits(ToBits(64, 6)) == 0
  {
    FromToBits(64, 6);
    assert Low(64, 6) == 0;
  }

  // ----- A whole stream

  lemma {:induction false} StreamReadsBack(prev: nat, ws: seq<nat>, pad: seq<bool>)
    requires Bits.Fits(prev, 64) && Words(ws)
    ensures NoBothEnds(prev, ws) <==> ReadWords(StreamBits(prev, ws) + pad, prev, |ws|) == Ok(ws)
    decreases |ws|
  {
    hide DiffBits, ReadWord, BothEnds, Bits.Xor, Bits.Fits;
    if ws != [] {
      var x := Bits.Xor(ws[0], prev);
      XorFits(ws[0], prev, 64);
      var more := StreamBits(ws[0], ws[1..]) + pad;
      var s := StreamBits(prev, ws) + pad;
      assert s == DiffBits(x) + more;
      if BothEnds(x) {
        ReadsNothing(x, prev, more);
        BothEndsDiffer(ws[0], prev);
      } else {
        ReadsBack(x, prev, more);
        XorInverse(prev, ws[0]);
        StreamReadsBack(ws[0], ws[1..], pad);
        assert ws == [ws[0]] + ws[1..];
      }
    }
  }

  lemma BothEndsDiffer(a: nat, b: nat)
    requires BothEnds(Bits.Xor(a, b))
    ensures a != b
  {
    XorSelf(a);
  }

  // ----- The encoder

  method WriteDiff(w: BitWriter, x: nat)
    requires w.Valid() && Bits.Fits(x, 64)
    modifies w
    ensures w.Valid() && w.Written() == old(w.Written()) + DiffBits(x) && old(w.buf) <= w.buf
  {
    hide Leading, Trailing, Length, Shr, ToBits, Bits.Fits, Held;
    if x == 0 {
      w.WriteBit(0);
    } else {
      ghost var before := w.Written();
      var l, t, n := Leading(x), Trailing(x), Length(x);
      w.WriteBit(1);
      w.WriteBits(l, 5);
      w.WriteBits(n, 6);
      w.WriteBits(Shr(x, t), n);
      assert before + [true] + ToBits(l, 5) + ToBits(n, 6) + ToBits(Shr(x, t), n)
          == before + ([true] + (ToBits(l, 5) + (ToBits(n, 6) + ToBits(Shr(x, t), n))));
    }
  }

  /** Appends the bit stream of the words after `first` to `header`. */
  method WriteStream(header: seq<byte>, first: nat, ws: seq<nat>) returns (body: seq<byte>, ghost packed: seq<byte>)
    requires Bits.Fits(first, 64) && Words(ws)
    ensures body == header + packed && StreamBits(first, ws) <= BytesBits(packed)
    ensures |packed| == CeilDiv(|StreamBits(first, ws)|, 8)
  {
    hide DiffBits, Bits.Xor, Bits.Fits, Held, BytesBits;
    var w := new BitWriter(header);
    var prev := first;
    for i := 0 to |ws|
      invariant w.Valid() && Bits.Fits(prev, 64) && header <= w.buf
      invariant w.Written() + StreamBits(prev, ws[i..]) == BytesBits(header) + StreamBits(first, ws)
    {
      var x := Bits.Xor(ws[i], prev);
      XorFits(ws[i], prev, 64);
      ghost var before, more := w.Written(), StreamBits(ws[i], ws[i + 1..]);
      assert ws[i..][1..] == ws[i + 1..];
      WriteDiff(w, x);
      assert (before + DiffBits(x)) + more == before + (DiffBits(x) + more);
      prev := ws[i];
    }
    assert ws[|ws|..] == [];
    w.Flush();
    body := w.buf;
    packed := body[|header|..];
    assert body == header + packed;
    BytesBitsSize(header);
    BytesBitsConcat(header, packed);
    PrefixOfSuffix(BytesBits(header), StreamBits(first, ws), BytesBits(packed));
  }

  lemma PrefixOfSuffix(a: seq<bool>, b: seq<bool>, c: seq<bool>)
    requires a + b <= a + c
    ensures b <= c
  {
    assert (a + c)[..|a| + |b|] == a + b;
    assert c[..|b|] == (a + c)[|a|..|a| + |b|] == b;
  }

  lemma {:induction false} BytesBitsConcat(a: seq<byte>, b: seq<byte>)
    ensures BytesBits(a + b) == BytesBits(a) + BytesBits(b)
  {
    hide ToBits;
    if a == [] {
      assert a + b == b;
    } else {
      BytesBitsConcat(a[1..], b);
      assert (a + b)[1..] == a[1..] + b;
    }
  }

  // ----- The decoder

  /** What the decoder returns for a body. */
  ghost function XorDecoded(body: seq<byte>, expectedLen: nat): Result<seq<byte>, CodecError> {
    if |body| < 4 then Err(Incomplete(4, |body|))
    else
      var count := Get(body, 0, 4);
      var rem := SatSub(expectedLen, count * 8);
      var ws := XorWords(body, count);
      if ws.Err? then Err(ws.error)
      else
        var out := LeBytes(ws.value, 8) + if rem > 0 then body[SatSub(|body|, rem)..] else [];
        if |out| != expectedLen then Err(LengthMismatch(expectedLen, |out|)) else Ok(out)
  }

  ghost function XorWords(body: seq<byte>, count: nat): Result<seq<nat>, CodecError> {
    if count == 0 then Ok([])
    else if |body| < 12 then Err(Incomplete(12, |body|))
    else
      var first := Get(body, 4, 8);
      var more := ReadWords(BytesBits(body[12..]), first, count - 1);
      if more.Err? then more else Ok([first] + more.value)
  }

  method ReadOne(r: BitReader, prev: nat) returns (w: Result<nat, CodecError>)
    requires r.Valid()
    modifies r
    ensures r.Valid()
    ensures w.Err? <==> ReadWord(old(r.Unread()), prev).Err?
    ensures w.Err? ==> w.error == InvalidData
    ensures w.Ok? ==> ReadWord(old(r.Unread()), prev) == Ok((w.value, r.Unread()))
  {
    hide Ahead, Bits.Fits, FromBits, Bits.Xor, Low, Shl;
    ghost var s := r.Unread();
    var bit := r.ReadBit();
    if bit.Err? {
      return Err(InvalidData);
    }
    if bit.value == 0 {
      return Ok(prev);
    }
    var leading := r.ReadBits(5);
    if leading.Err? {
      return Err(InvalidData);
    }
    SliceBits(s, 1, 0, 5);
    var length := r.ReadBits(6);
    if length.Err? {
      return Err(InvalidData);
    }
    SliceBits(s, 6, 0, 6);
    assert s[1..][5..] == s[6..] && s[6..][6..] == s[12..];
    var meaningful := r.ReadBits(length.value);
    if meaningful.Err? {
      return Err(InvalidData);
    }
    SliceBits(s, 12, 0, length.value);
    assert s[12..][length.value..] == s[12 + length.value..];
    var used: int := leading.value + length.value;
    var trailing := (64 - used) % 256;
    w := Ok(Bits.Xor(prev, Low(Shl(meaningful.value, trailing % 64), 64)));
  }

  lemma SliceBits(s: seq<bool>, k: nat, lo: nat, hi: nat)
    requires lo <= hi && k + hi <= |s|
    ensures s[k..][lo..hi] == s[k + lo..k + hi]
  {
  }

  lemma {:induction false} ReadWordsError(s: seq<bool>, prev: nat, count: nat)
    ensures ReadWords(s, prev, count).Err? ==> ReadWords(s, prev, count).error == InvalidData
    decreases count
  {
    hide FromBits, Bits.Xor, Low, Shl;
    if count > 0 {
      var r := ReadWord(s, prev);
      if r.Ok? {
        ReadWordsError(r.value.1, r.value.0, count - 1);
      }
    }
  }

  /** Words already read, followed by what the rest of the stream yields. */
  ghost function Then(ws: seq<nat>, r: Result<seq<nat>, CodecError>): Result<seq<nat>, CodecError> {
    if r.Err? then r else Ok(ws + r.value)
  }

  method ReadStream(slice: seq<byte>, first: nat, count: nat) returns (r: Result<seq<nat>, CodecError>)
    ensures r == ReadWords(BytesBits(slice), first, count)
  {
    hide ReadWord, Ahead, Bits.Fits, BytesBits;
    var reader := new BitReader(slice);
    var prev := first;
    var ws: seq<nat> := [];
    ThenNothing(ReadWords(BytesBits(slice), first, count));
    for k := 0 to count
      invariant fresh(reader) && reader.Valid()
      invariant Then(ws, ReadWords(reader.Unread(), prev, count - k)) == ReadWords(BytesBits(slice), first, count)
    {
      ghost var before := reader.Unread();
      ReadWordsError(before, prev, count - k);
      var w := ReadOne(reader, prev);
      if w.Err? {
        return Err(InvalidData);
      }
      ThenOne(ws, before, prev, count - k, w.value, reader.Unread());
      ws := ws + [w.value];
      prev := w.value;
    }
    assert ReadWords(reader.Unread(), prev, 0) == Ok([]) && ws + [] == ws;
    r := Ok(ws);
  }

  lemma ThenNothing(r: Result<seq<nat>, CodecError>)
    ensures Then([], r) == r
  {
    assert r.Ok? ==> [] + r.value == r.value;
  }

  lemma ThenOne(ws: seq<nat>, s: seq<bool>, prev: nat, count: nat, w: nat, rest: seq<bool>)
    requires count > 0 && ReadWord(s, prev) == Ok((w, rest))
    ensures Then(ws, ReadWords(s, prev, count)) == Then(ws + [w], ReadWords(rest, w, count - 1))
  {
    hide ReadWord;
    var more := ReadWords(rest, w, count - 1);
    if more.Ok? {
      assert ws + ([w] + more.value) == (ws + [w]) + more.value;
    }
  }

  method XorDecodeBody(body: seq<byte>, expectedLen: nat) returns (r: Result<seq<byte>, CodecError>)
    ensures r == XorDecoded(body, expectedLen)
  {
    hide ReadWords, BytesBits, FromLe;
    if |body| < 4 {
      return Err(Incomplete(4, |body|));
    }
    var count := Get(body, 0, 4);
    var rem := SatSub(expectedLen, count * 8);
    var out: seq<byte> := [];
    assert LeBytes([], 8) == [];
    if count > 0 {
      if |body| < 12 {
        return Err(Incomplete(12, |body|));
      }
      var first := Get(body, 4, 8);
      var more := ReadStream(body[12..], first, count - 1);
      if more.Err? {
        return Err(more.error);
      }
      out := WriteWords([first] + more.value, 8);
    }
    if rem > 0 {
      var start := SatSub(|body|, rem);
      out := out + body[start..];
    } else {
      assert out + [] == out;
    }
    if |out| != expectedLen {
      return Err(LengthMismatch(expectedLen, |out|));
    }
    r := Ok(out);
  }

  // ----- Lossless exactly without both-ends differences

  lemma {:induction false} ReadWordsShape(s: seq<bool>, prev: nat, count: nat)
    requires Bits.Fits(prev, 64)
    ensures var r := ReadWords(s, prev, count); r.Ok? ==> |r.value| == count && Words(r.value)
    decreases count
  {
    hide FromBits, Bits.Xor, Low, Shl, Bits.Fits;
    if count > 0 {
      var r := ReadWord(s, prev);
      if r.Ok? {
        ReadWordFits(s, prev);
        ReadWordsShape(r.value.1, r.value.0, count - 1);
      }
    }
  }

  lemma ReadWordFits(s: seq<bool>, prev: nat)
    requires Bits.Fits(prev, 64)
    ensures ReadWord(s, prev).Ok? ==> Bits.Fits(ReadWord(s, prev).value.0, 64)
  {
    hide FromBits, Bits.Xor, Low, Shl, Bits.Fits;
    if s != [] && s[0] && |s| >= 12 {
      var leading, length := FromBits(s[1..6]), FromBits(s[6..12]);
      if |s| >= 12 + length {
        var used: int := leading + length;
        var x := Shl(FromBits(s[12..12 + length]), (64 - used) % 256 % 64);
        FromToBits(x, 64);
        XorFits(prev, Low(x, 64), 64);
      }
    }
  }

  lemma {:induction false} LeBytesInjective(a: seq<nat>, b: seq<nat>, size: nat)
    requires |a| == |b| && LeBytes(a, size) == LeBytes(b, size)
    requires forall i :: 0 <= i < |a| ==> Bytes.Fits(a[i], size) && Bytes.Fits(b[i], size)
    ensures a == b
  {
    hide Le, FromLe, Bytes.Fits;
    if a != [] {
      var x, y := LeBytes(a, size), LeBytes(b, size);
      assert x[..size] == Le(a[0], size) && y[..size] == Le(b[0], size);
      assert x[size..] == LeBytes(a[1..], size) && y[size..] == LeBytes(b[1..], size);
      FromLeOfLe(a[0], size);
      FromLeOfLe(b[0], size);
      LeBytesInjective(a[1..], b[1..], size);
      assert a == [a[0]] + a[1..] && b == [b[0]] + b[1..];
    }
  }

  /** The body the encoder builds from at least one word. */
  ghost function Body(ws: seq<nat>, packed: seq<byte>, tail: seq<byte>): seq<byte>
    requires ws != []
  {
    Le(|ws|, 4) + Le(ws[0], 8) + (packed + tail)
  }

  lemma BodyParts(ws: seq<nat>, packed: seq<byte>, tail: seq<byte>)
    requires ws != [] && |ws| < U32 && Bytes.Fits(ws[0], 8)
    ensures var body := Body(ws, packed, tail);
            && |body| == 12 + |packed| + |tail|
            && Get(body, 0, 4) == |ws| && Get(body, 4, 8) == ws[0]
            && body[12..] == packed + tail && body[|body| - |tail|..] == tail
  {
    hide Le, FromLe, Bytes.Fits;
    var body := Body(ws, packed, tail);
    assert body[0..4] == Le(|ws|, 4);
    assert body[4..12] == Le(ws[0], 8);
    FieldRoundTrip(|ws|, 4, U32);
    FromLeOfLe(ws[0], 8);
    assert body[12..] == packed + tail;
  }

  /** Decoding the encoder's body gives the input back exactly when no difference has both end bits. */
  lemma LosslessExactly(ws: seq<nat>, packed: seq<byte>, tail: seq<byte>, len: nat)
    requires ws != [] && Words(ws) && |ws| * 8 + |tail| == len < U32
    requires StreamBits(ws[0], ws[1..]) <= BytesBits(packed)
    ensures XorDecoded(Body(ws, packed, tail), len) == Ok(LeBytes(ws, 8) + tail) <==> NoBothEnds(ws[0], ws[1..])
  {
    hide Le, FromLe, Bytes.Fits, Bits.Fits, BytesBits, StreamBits, ReadWords, Body, NoBothEnds, LeBytes;
    WidthsAgree(ws[0]);
    BodyParts(ws, packed, tail);
    var first, more := ws[0], ws[1..];
    var body := Body(ws, packed, tail);
    BytesBitsConcat(packed, tail);
    var all := BytesBits(packed + tail);
    var pad := all[|StreamBits(first, more)|..];
    assert all == StreamBits(first, more) + pad;
    StreamReadsBack(first, more, pad);
    ReadWordsShape(all, first, |more|);
    var got := ReadWords(all, first, |more|);
    if got.Ok? {
      DecodedBytes(ws, [first] + got.value, body, tail, len);
      assert got.value == more <==> [first] + got.value == ws by {
        assert ws == [first] + more;
        assert ([first] + got.value)[1..] == got.value;
      }
    }
  }

  /** The decoded bytes are right exactly when the decoded words are. */
  lemma DecodedBytes(ws: seq<nat>, got: seq<nat>, body: seq<byte>, tail: seq<byte>, len: nat)
    requires Words(ws) && Words(got) && |got| == |ws| && |ws| * 8 + |tail| == len
    requires |body| >= 4 && |tail| <= |body| && Get(body, 0, 4) == |ws| && XorWords(body, |ws|) == Ok(got)
    requires body[|body| - |tail|..] == tail
    ensures XorDecoded(body, len) == Ok(LeBytes(ws, 8) + tail) <==> got == ws
  {
    hide FromLe, XorWords, LeBytes, Bytes.Fits, Bits.Fits;
    LeBytesSize(ws, 8);
    LeBytesSize(got, 8);
    assert XorDecoded(body, len) == Ok(LeBytes(got, 8) + tail);
    if LeBytes(got, 8) + tail == LeBytes(ws, 8) + tail {
      assert (LeBytes(got, 8) + tail)[..8 * |ws|] == LeBytes(got, 8);
      assert (LeBytes(ws, 8) + tail)[..8 * |ws|] == LeBytes(ws, 8);
      forall i | 0 <= i < |ws|
        ensures Bytes.Fits(got[i], 8) && Bytes.Fits(ws[i], 8)
      {
        WidthsAgree(got[i]);
        WidthsAgree(ws[i]);
      }
      LeBytesInjective(got, ws, 8);
    }
  }

  /** An input of less than one word is carried as its tail. */
  lemma LosslessWithoutWords(input: seq<byte>)
    requires |input| < 8
    ensures XorDecoded(Le(0, 4) + input, |input|) == Ok(input)
  {
    var body := Le(0, 4) + input;
    assert body[0..4] == Le(0, 4);
    FieldRoundTrip(0, 4, U32);
    assert body[|body| - |input|..] == input;
    assert LeBytes([], 8) + input == input;
  }

  /** No two consecutive words of the input differ in both end bits. */
  ghost predicate Codable(input: seq<byte>) {
    var ws := LeWords(input, 8);
    ws != [] ==> NoBothEnds(ws[0], ws[1..])
  }

  /** The size of the body: the number of words, the first word, the stream padded to bytes, what is left over. */
  ghost function XorSize(input: seq<byte>): nat {
    var ws := LeWords(input, 8);
    WordsAndTail(input, 8);
    WordsFit64(ws);
    4 + (if ws == [] then 0 else 8 + CeilDiv(|StreamBits(ws[0], ws[1..])|, 8)) + |Tail(input, 8)|
  }

  method XorEncode(input: seq<byte>) returns (r: Result<seq<byte>, CodecError>)
    ensures r.Ok? <==> |input| < U32
    ensures r.Ok? ==> exists body :: r == FrameCompressed(CodecId.Xor, |input|, body)
                                     && (XorDecoded(body, |input|) == Ok(input) <==> Codable(input))
                                     && |body| == XorSize(input)
  {
    hide FrameCompressed, XorDecoded, Le, LeBytes, LeWords, Tail, BytesBits, StreamBits, NoBothEnds;
    var ws, tail := LeWords(input, 8), Tail(input, 8);
    WordsAndTail(input, 8);
    var body := Le(|ws|, 4);
    if ws != [] {
      WordsFit64(ws);
      ghost var packed;
      body, packed := WriteStream(body + Le(ws[0], 8), ws[0], ws[1..]);
      assert body + tail == Body(ws, packed, tail) by {
        BodyAssoc(ws, packed, tail);
      }
      if |input| < U32 {
        LosslessExactly(ws, packed, tail, |input|);
      }
    } else if |input| < U32 {
      assert LeBytes([], 8) + tail == tail by { NoLeBytes(tail); }
      LosslessWithoutWords(input);
    }
    body := body + tail;
    r := FrameCompressed(CodecId.Xor, |input|, body);
    FrameOutcome(CodecId.Xor, |input|, body);
  }

  lemma WordsFit64(ws: seq<nat>)
    requires forall i :: 0 <= i < |ws| ==> Bytes.Fits(ws[i], 8)
    ensures Words(ws)
  {
    forall i | 0 <= i < |ws|
      ensures Bits.Fits(ws[i], 64)
    {
      WidthsAgree(ws[i]);
    }
  }

  lemma BodyAssoc(ws: seq<nat>, packed: seq<byte>, tail: seq<byte>)
    requires ws != []
    ensures Le(|ws|, 4) + Le(ws[0], 8) + packed + tail == Body(ws, packed, tail)
  {
    ConcatAssoc(Le(|ws|, 4) + Le(ws[0], 8), packed, tail);
  }

  lemma ConcatAssoc(a: seq<byte>, b: seq<byte>, c: seq<byte>)
    ensures (a + b) + c == a + (b + c)
  {
  }

  lemma NoLeBytes(tail: seq<byte>)
    ensures LeBytes([], 8) + tail == tail
  {
  }

  /** The words 0 and 0x8000000000000001 differ in both end bits, so XOR coding loses them. */
  lemma LossExample()
    ensures Words([0x8000_0000_0000_0001]) && Bits.Fits(0, 64)
    ensures forall pad ::
              ReadWords(StreamBits(0, [0x8000_0000_0000_0001]) + pad, 0, 1) != Ok([0x8000_0000_0000_0001])
  {
    hide ReadWords, StreamBits;
    var w: nat := 0x8000_0000_0000_0001;
    assert Bits.Xor(w, 0) == w;
    Powers();
    Pow2Add(32, 31);
    FitsIsBound(w, 63);
    FitsIsBound(w, 64);
    FitsIsBound(0, 64);
    assert !NoBothEnds(0, [w]);
    forall pad: seq<bool>
      ensures ReadWords(StreamBits(0, [w]) + pad, 0, 1) != Ok([w])
    {
      StreamReadsBack(0, [w], pad);
    }
  }
}
