/** The bit-packing codec (32-bit words) and the frame-of-reference codec (64-bit words). */
module CodecPack {
  import opened Core
  import opened Bytes
  import opened BitPacking
  import opened CodecFrame
  import Bits

  /** The whole little-endian words at the front of `s`. */
  function LeWords(s: seq<byte>, size: nat): seq<nat>
    requires size > 0
  {
    if |s| < size then [] else [FromLe(s[..size])] + LeWords(s[size..], size)
  }

  /** What is left after the whole words. */
  function Tail(s: seq<byte>, size: nat): seq<byte>
    requires size > 0
  {
    if |s| < size then s else Tail(s[size..], size)
  }

  function LeBytes(ws: seq<nat>, size: nat): seq<byte> {
    if ws == [] then [] else Le(ws[0], size) + LeBytes(ws[1..], size)
  }

  lemma {:induction false} WordsAndTailBytes(s: seq<byte>, size: nat)
    requires size > 0
    ensures LeBytes(LeWords(s, size), size) + Tail(s, size) == s
  {
    hide FromLe, Le;
    if |s| >= size {
      WordsAndTailBytes(s[size..], size);
      LeOfFromLe(s[..size]);
      assert LeWords(s, size)[1..] == LeWords(s[size..], size);
      assert s == s[..size] + s[size..];
    }
  }

  lemma {:induction false} WordsAndTailSize(s: seq<byte>, size: nat)
    requires size > 0
    ensures |LeWords(s, size)| * size + |Tail(s, size)| == |s| && |Tail(s, size)| < size
  {
    hide FromLe;
    if |s| >= size {
      WordsAndTailSize(s[size..], size);
      OneMore(|LeWords(s[size..], size)|, size);
    }
  }

  lemma OneMore(k: nat, size: nat)
    ensures (k + 1) * size == size + k * size
  {
  }

  lemma {:induction false} WordsFit(s: seq<byte>, size: nat)
    requires size > 0
    ensures forall i :: 0 <= i < |LeWords(s, size)| ==> Bytes.Fits(LeWords(s, size)[i], size)
  {
    if |s| >= size {
      WordsFit(s[size..], size);
      LeOfFromLe(s[..size]);
      assert LeWords(s, size)[1..] == LeWords(s[size..], size);
    }
  }

  lemma WordsAndTail(s: seq<byte>, size: nat)
    requires size > 0
    ensures LeBytes(LeWords(s, size), size) + Tail(s, size) == s
    ensures |LeWords(s, size)| * size + |Tail(s, size)| == |s| && |Tail(s, size)| < size
    ensures forall i :: 0 <= i < |LeWords(s, size)| ==> Bytes.Fits(LeWords(s, size)[i], size)
  {
    hide *;
    WordsAndTailBytes(s, size);
    WordsAndTailSize(s, size);
    WordsFit(s, size);
  }

  lemma {:induction false} LeBytesSize(ws: seq<nat>, size: nat)
    ensures |LeBytes(ws, size)| == |ws| * size
  {
    if ws != [] {
      LeBytesSize(ws[1..], size);
      assert |ws| * size == size + |ws[1..]| * size;
    }
  }

  lemma {:induction false} LeBytesAppend(ws: seq<nat>, w: nat, size: nat)
    ensures LeBytes(ws + [w], size) == LeBytes(ws, size) + Le(w, size)
  {
    hide Le;
    if ws == [] {
      assert (ws + [w])[1..] == [];
    } else {
      LeBytesAppend(ws[1..], w, size);
      assert (ws + [w])[1..] == ws[1..] + [w];
    }
  }

  /** Bit and byte widths agree. */
  lemma WidthsAgree(x: nat)
    ensures Bits.Fits(x, 32) <==> Bytes.Fits(x, 4)
    ensures Bits.Fits(x, 64) <==> Bytes.Fits(x, 8)
  {
    FitsWidths(x);
    Bits.FitsIsBound(x, 32);
    Bits.FitsIsBound(x, 64);
    Bits.Powers();
  }

  /** `m` is the highest of the words, or zero when there are none. */
  ghost predicate IsHighest(ws: seq<nat>, m: nat) {
    (forall i :: 0 <= i < |ws| ==> ws[i] <= m) && (m == 0 || m in ws)
  }

  ghost predicate IsLowest(ws: seq<nat>, m: nat) {
    (forall i :: 0 <= i < |ws| ==> m <= ws[i]) && m in ws
  }

  function Highest(ws: seq<nat>): (m: nat)
    ensures IsHighest(ws, m)
  {
    if ws == [] then 0 else Max(Highest(ws[..|ws| - 1]), ws[|ws| - 1])
  }

  function Lowest(ws: seq<nat>): (m: nat)
    requires ws != []
    ensures IsLowest(ws, m)
  {
    if |ws| == 1 then ws[0] else Min(Lowest(ws[..|ws| - 1]), ws[|ws| - 1])
  }

  lemma HighestIsOne(ws: seq<nat>, m: nat)
    requires IsHighest(ws, m)
    ensures m == Highest(ws)
  {
  }

  lemma LowestIsOne(ws: seq<nat>, m: nat)
    requires ws != [] && IsLowest(ws, m)
    ensures m == Lowest(ws)
  {
  }

  method Maximum(ws: seq<nat>) returns (m: nat)
    ensures IsHighest(ws, m)
  {
    m := 0;
    for i := 0 to |ws|
      invariant forall j :: 0 <= j < i ==> ws[j] <= m
      invariant m == 0 || m in ws
    {
      if ws[i] > m {
        m := ws[i];
      }
    }
  }

  method Minimum(ws: seq<nat>) returns (m: nat)
    requires ws != []
    ensures IsLowest(ws, m)
  {
    m := ws[0];
    for i := 1 to |ws|
      invariant forall j :: 0 <= j < i ==> m <= ws[j]
      invariant m in ws
    {
      if ws[i] < m {
        m := ws[i];
      }
    }
  }

  /** How many bytes `count` words of `bits` bits take. */
  function PackedLen(count: nat, bits: nat): nat {
    CeilDiv(count * bits, 8)
  }

  /** The sizes of the bodies: header, packed words and the bytes left over. */
  function BitPackSize(input: seq<byte>): nat {
    var ws := LeWords(input, 4);
    5 + PackedLen(|ws|, BitLen(Highest(ws))) + |Tail(input, 4)|
  }

  function ForSize(input: seq<byte>): nat {
    var ws := LeWords(input, 8);
    13 + ForPacked(ws) + |Tail(input, 8)|
  }

  /** Each word takes as many bits as the distance from the lowest word to the highest. */
  function ForPacked(ws: seq<nat>): nat {
    if ws == [] then 0
    else
      assert ws[0] <= Highest(ws) && Lowest(ws) <= ws[0];
      PackedLen(|ws|, BitLen(Highest(ws) - Lowest(ws)))
  }

  /** The packed words, or nothing when all words are zero. */
  method PackAll(ws: seq<nat>, bits: nat, width: nat) returns (packed: seq<byte>)
    requires bits + 7 <= width
    requires forall i :: 0 <= i < |ws| ==> Bits.Fits(ws[i], bits)
    ensures |packed| == PackedLen(|ws|, bits)
    ensures Chunks(BytesBits(packed), bits, |ws|) == ws
  {
    if bits == 0 {
      packed := [];
      assert |ws| * bits == 0;
      ChunksOfWords(ws, 0, []);
      NoBits(ws);
    } else {
      packed := Pack(ws, bits, width);
      var all, front := BytesBits(packed), WordBits(ws, bits);
      assert all == front + all[|front|..];
      ChunksOfWords(ws, bits, all[|front|..]);
    }
  }

  lemma {:induction false} NoBits(ws: seq<nat>)
    ensures WordBits(ws, 0) == []
  {
    if ws != [] {
      NoBits(ws[1..]);
    }
  }

  /** The words of a packed slice; of no bits at all, only zeros. */
  method UnpackAll(packed: seq<byte>, bits: nat, count: nat, width: nat) returns (ws: seq<nat>)
    requires bits + 7 <= width && |packed| == PackedLen(count, bits)
    ensures ws == Chunks(BytesBits(packed), bits, count)
    ensures |ws| == count
  {
    if bits == 0 {
      ws := [];
      assert count * bits == 0;
      assert packed == [];
      for k := 0 to count
        invariant |ws| == k
        invariant ws + Chunks([], 0, count - k) == Chunks([], 0, count)
      {
        ws := ws + [0];
      }
    } else {
      ws := Unpack(packed, bits, count, width);
    }
  }

  // ----- Bit packing of 32-bit words

  function SatSub(a: nat, b: nat): nat {
    if a < b then 0 else a - b
  }

  /** What the bit-packing decoder returns for a body. */
  function BitPackDecoded(body: seq<byte>, expectedLen: nat): Result<seq<byte>, CodecError> {
    if |body| < 5 then Err(Incomplete(5, |body|))
    else if body[0] > 32 then Err(InvalidData)
    else
      var count := Get(body, 1, 4);
      if count * 4 + SatSub(expectedLen, count * 4) != expectedLen then Err(InvalidData)
      else BitPackRest(body[0] as nat, count, body[5..], expectedLen)
  }

  /** After the five header bytes. */
  function BitPackRest(bits: nat, count: nat, rest: seq<byte>, expectedLen: nat): Result<seq<byte>, CodecError> {
    var at, rem := PackedLen(count, bits), SatSub(expectedLen, count * 4);
    if |rest| < at + rem then Err(Incomplete(5 + at + rem, 5 + |rest|))
    else
      var out := LeBytes(Chunks(BytesBits(rest[..at]), bits, count), 4) + rest[at..at + rem];
      if |out| != expectedLen then Err(LengthMismatch(expectedLen, |out|)) else Ok(out)
  }

  /** A body built from some words and a tail decodes to exactly their bytes. */
  lemma BitPackRestores(ws: seq<nat>, bits: byte, packed: seq<byte>, tail: seq<byte>, len: nat)
    requires bits <= 32 && |ws| * 4 + |tail| == len < U32
    requires |packed| == PackedLen(|ws|, bits as nat) && Chunks(BytesBits(packed), bits as nat, |ws|) == ws
    ensures BitPackDecoded([bits] + Le(|ws|, 4) + (packed + tail), len) == Ok(LeBytes(ws, 4) + tail)
  {
    hide Chunks, BytesBits, PackedLen, FromLe, BitPackRest;
    var body := [bits] + Le(|ws|, 4) + (packed + tail);
    assert body[1..5] == Le(|ws|, 4);
    FieldRoundTrip(|ws|, 4, U32);
    assert body[5..] == packed + tail;
    BitPackRestRestores(ws, bits as nat, packed, tail, len);
  }

  lemma BitPackRestRestores(ws: seq<nat>, bits: nat, packed: seq<byte>, tail: seq<byte>, len: nat)
    requires |ws| * 4 + |tail| == len
    requires |packed| == PackedLen(|ws|, bits) && Chunks(BytesBits(packed), bits, |ws|) == ws
    ensures BitPackRest(bits, |ws|, packed + tail, len) == Ok(LeBytes(ws, 4) + tail)
  {
    hide Chunks, BytesBits, PackedLen;
    var rest := packed + tail;
    assert rest[..|packed|] == packed;
    assert rest[|packed|..|packed| + |tail|] == tail;
    LeBytesSize(ws, 4);
  }

  method BitPackEncode(input: seq<byte>) returns (r: Result<seq<byte>, CodecError>)
    ensures r.Ok? <==> |input| < U32
    ensures r.Ok? ==> exists body :: r == FrameCompressed(CodecId.BitPack, |input|, body)
                                     && BitPackDecoded(body, |input|) == Ok(input) && |body| == BitPackSize(input)
  {
    hide LeWords, Tail, IsHighest, Highest, PackedLen, BitLen, Bits.Fits, BitPackDecoded, FrameCompressed, Chunks,
         BytesBits;
    var ws, tail := LeWords(input, 4), Tail(input, 4);
    WordsAndTail(input, 4);
    var max := Maximum(ws);
    HighestIsOne(ws, max);
    var bits := BitLen(max);
    BitPackWidth(ws, max);
    var packed := PackAll(ws, bits, 64);
    var body := [bits as byte] + Le(|ws|, 4) + (packed + tail);
    if |input| < U32 {
      BitPackRestores(ws, bits as byte, packed, tail, |input|);
    }
    r := FrameCompressed(CodecId.BitPack, |input|, body);
    FrameOutcome(CodecId.BitPack, |input|, body);
  }

  lemma BitPackWidth(ws: seq<nat>, max: nat)
    requires IsHighest(ws, max) && forall i :: 0 <= i < |ws| ==> Bytes.Fits(ws[i], 4)
    ensures BitLen(max) <= 32
    ensures forall i :: 0 <= i < |ws| ==> Bits.Fits(ws[i], BitLen(max))
  {
    if max != 0 {
      WidthsAgree(max);
      BitLenBound(max, 32);
    }
    forall i | 0 <= i < |ws|
      ensures Bits.Fits(ws[i], BitLen(max))
    {
      BitLenFits(ws[i], max);
    }
  }

  method BitPackDecodeBody(body: seq<byte>, expectedLen: nat) returns (r: Result<seq<byte>, CodecError>)
    ensures r == BitPackDecoded(body, expectedLen)
  {
    hide PackedLen, Chunks, BytesBits, LeBytes, FromLe;
    if |body| < 5 {
      return Err(Incomplete(5, |body|));
    }
    var bits := body[0] as nat;
    if bits > 32 {
      return Err(InvalidData);
    }
    var count := Get(body, 1, 4);
    var rem := SatSub(expectedLen, count * 4);
    if count * 4 + rem != expectedLen {
      return Err(InvalidData);
    }
    var packedLen := PackedLen(count, bits);
    if |body| < 5 + packedLen + rem {
      return Err(Incomplete(5 + packedLen + rem, |body|));
    }
    var packed := body[5..5 + packedLen];
    SliceOfSuffix(body, 5, 0, packedLen);
    var ws := UnpackAll(packed, bits, count, 64);
    var out := WriteWords(ws, 4);
    var tail := body[5 + packedLen..5 + packedLen + rem];
    SliceOfSuffix(body, 5, packedLen, packedLen + rem);
    out := out + tail;
    if |out| != expectedLen {
      return Err(LengthMismatch(expectedLen, |out|));
    }
    r := Ok(out);
  }

  method WriteWords(ws: seq<nat>, size: nat) returns (out: seq<byte>)
    ensures out == LeBytes(ws, size)
  {
    out := [];
    for k := 0 to |ws|
      invariant out == LeBytes(ws[..k], size)
    {
      LeBytesAppend(ws[..k], ws[k], size);
      assert ws[..k + 1] == ws[..k] + [ws[k]];
      out := out + Le(ws[k], size);
    }
    assert ws[..|ws|] == ws;
  }

  // ----- Frame of reference for 64-bit words

  /** Every offset on top of the base, wrapping at 64 bits. */
  function Rebased(offsets: seq<nat>, base: nat): (r: seq<nat>)
    ensures |r| == |offsets|
    ensures forall i :: 0 <= i < |r| ==> r[i] == (base + offsets[i]) % U64
  {
    if offsets == [] then [] else [(base + offsets[0]) % U64] + Rebased(offsets[1..], base)
  }

  /** What the frame-of-reference decoder returns for a body. */
  function ForDecoded(body: seq<byte>, expectedLen: nat): Result<seq<byte>, CodecError> {
    if |body| < 13 then Err(Incomplete(13, |body|))
    else if body[8] > 64 then Err(InvalidData)
    else ForRest(Get(body, 0, 8), body[8] as nat, Get(body, 9, 4), body[13..], expectedLen)
  }

  /** After the thirteen header bytes. */
  function ForRest(base: nat, bits: nat, count: nat, rest: seq<byte>, expectedLen: nat): Result<seq<byte>, CodecError> {
    var at, rem := PackedLen(count, bits), SatSub(expectedLen, count * 8);
    if |rest| < at + rem then Err(Incomplete(13 + at + rem, 13 + |rest|))
    else
      var out := LeBytes(Rebased(Chunks(BytesBits(rest[..at]), bits, count), base), 8) + rest[at..at + rem];
      if |out| != expectedLen then Err(LengthMismatch(expectedLen, |out|)) else Ok(out)
  }

  lemma ForRestores(base: nat, offsets: seq<nat>, bits: byte, packed: seq<byte>, tail: seq<byte>, len: nat)
    requires base < U64 && bits <= 64 && |offsets| * 8 + |tail| == len < U32
    requires |packed| == PackedLen(|offsets|, bits as nat)
             && Chunks(BytesBits(packed), bits as nat, |offsets|) == offsets
    ensures ForDecoded(Le(base, 8) + [bits] + Le(|offsets|, 4) + (packed + tail), len)
         == Ok(LeBytes(Rebased(offsets, base), 8) + tail)
  {
    hide Chunks, BytesBits, PackedLen, FromLe, Rebased, ForRest;
    var body := Le(base, 8) + [bits] + Le(|offsets|, 4) + (packed + tail);
    assert body[0..8] == Le(base, 8);
    FitsWidths(base);
    FromLeOfLe(base, 8);
    assert body[8] == bits;
    assert body[9..13] == Le(|offsets|, 4);
    FieldRoundTrip(|offsets|, 4, U32);
    assert body[13..] == packed + tail;
    ForRestRestores(base, offsets, bits as nat, packed, tail, len);
  }

  lemma ForRestRestores(base: nat, offsets: seq<nat>, bits: nat, packed: seq<byte>, tail: seq<byte>, len: nat)
    requires |offsets| * 8 + |tail| == len
    requires |packed| == PackedLen(|offsets|, bits) && Chunks(BytesBits(packed), bits, |offsets|) == offsets
    ensures ForRest(base, bits, |offsets|, packed + tail, len) == Ok(LeBytes(Rebased(offsets, base), 8) + tail)
  {
    hide Chunks, BytesBits, PackedLen, Rebased;
    var rest := packed + tail;
    assert rest[..|packed|] == packed;
    assert rest[|packed|..|packed| + |tail|] == tail;
    LeBytesSize(Rebased(offsets, base), 8);
  }

  method Offsets(ws: seq<nat>, base: nat) returns (offsets: seq<nat>)
    requires forall i :: 0 <= i < |ws| ==> base <= ws[i] < U64
    ensures |offsets| == |ws| && forall i :: 0 <= i < |ws| ==> offsets[i] == ws[i] - base
    ensures Rebased(offsets, base) == ws
  {
    hide Rebased;
    offsets := [];
    for k := 0 to |ws|
      invariant |offsets| == k && forall i :: 0 <= i < k ==> offsets[i] == ws[i] - base
    {
      offsets := offsets + [ws[k] - base];
    }
    RebasedAgain(ws, base, offsets);
  }

  lemma RebasedAgain(ws: seq<nat>, base: nat, offsets: seq<nat>)
    requires |offsets| == |ws| && forall i :: 0 <= i < |ws| ==> ws[i] < U64 && offsets[i] == ws[i] - base
    ensures Rebased(offsets, base) == ws
  {
    var r := Rebased(offsets, base);
    hide Rebased;
    forall i | 0 <= i < |ws|
      ensures r[i] == ws[i]
    {
      assert (base + offsets[i]) % U64 == ws[i];
    }
  }

  method ForEncode(input: seq<byte>) returns (r: Result<seq<byte>, CodecError>)
    ensures r.Ok? <==> |input| < U32
    ensures r.Ok? ==> exists body :: r == FrameCompressed(CodecId.DeltaFor, |input|, body)
                                     && ForDecoded(body, |input|) == Ok(input) && |body| == ForSize(input)
  {
    hide ForDecoded, FrameCompressed, Le, LeBytes, LeWords, Tail, Rebased, Chunks, BytesBits, PackedLen, Bits.Fits,
         BitLen;
    var ws, tail := LeWords(input, 8), Tail(input, 8);
    WordsAndTail(input, 8);
    var body;
    if ws == [] {
      body := Le(0, 13) + input;
      if |input| < U32 {
        ForTrivial(input);
      }
    } else {
      body := ForBody(ws, tail);
      if |input| < U32 {
        assert ForDecoded(body, |input|) == Ok(LeBytes(ws, 8) + tail);
      }
    }
    r := FrameCompressed(CodecId.DeltaFor, |input|, body);
    FrameOutcome(CodecId.DeltaFor, |input|, body);
  }

  lemma FrameOutcome(id: CodecId, len: nat, body: seq<byte>)
    ensures FrameCompressed(id, len, body).Ok? <==> len < U32
  {
  }

  method ForBody(ws: seq<nat>, tail: seq<byte>) returns (body: seq<byte>)
    requires ws != [] && forall i :: 0 <= i < |ws| ==> Bytes.Fits(ws[i], 8)
    ensures |ws| * 8 + |tail| < U32 ==> ForDecoded(body, |ws| * 8 + |tail|) == Ok(LeBytes(ws, 8) + tail)
    ensures |body| == 13 + ForPacked(ws) + |tail|
  {
    hide ForDecoded, Le, LeBytes, Rebased, Chunks, BytesBits, PackedLen, Bits.Fits, BitLen, IsHighest, IsLowest;
    var base := Minimum(ws);
    ForRange(ws, base);
    var offsets := Offsets(ws, base);
    var max := Maximum(offsets);
    var bits := BitLen(max);
    ForWidth(offsets, max);
    OffsetsSpan(ws, base, offsets, max);
    var packed := PackAll(offsets, bits, 128);
    body := Le(base, 8) + [bits as byte] + Le(|ws|, 4) + (packed + tail);
    if |ws| * 8 + |tail| < U32 {
      ForRestores(base, offsets, bits as byte, packed, tail, |ws| * 8 + |tail|);
    }
  }

  /** The highest offset is the distance from the lowest word to the highest. */
  lemma OffsetsSpan(ws: seq<nat>, base: nat, offsets: seq<nat>, max: nat)
    requires ws != [] && IsLowest(ws, base) && IsHighest(offsets, max)
    requires |offsets| == |ws| && forall i :: 0 <= i < |ws| ==> offsets[i] == ws[i] - base
    ensures base == Lowest(ws) && base + max == Highest(ws)
  {
    LowestIsOne(ws, base);
    var i :| 0 <= i < |ws| && ws[i] == base;
    assert IsHighest(ws, base + max) by {
      if max == 0 {
        assert ws[i] == base + max;
      } else {
        var j :| 0 <= j < |offsets| && offsets[j] == max;
        assert ws[j] == base + max;
      }
      assert forall j :: 0 <= j < |ws| ==> ws[j] == base + offsets[j];
    }
    HighestIsOne(ws, base + max);
  }

  lemma ForRange(ws: seq<nat>, base: nat)
    requires IsLowest(ws, base) && forall i :: 0 <= i < |ws| ==> Bytes.Fits(ws[i], 8)
    ensures forall i :: 0 <= i < |ws| ==> base <= ws[i] < U64
    ensures base < U64
  {
    forall i | 0 <= i < |ws|
      ensures ws[i] < U64
    {
      FitsWidths(ws[i]);
    }
  }

  lemma ForWidth(offsets: seq<nat>, max: nat)
    requires IsHighest(offsets, max) && forall i :: 0 <= i < |offsets| ==> offsets[i] < U64
    ensures BitLen(max) <= 64
    ensures forall i :: 0 <= i < |offsets| ==> Bits.Fits(offsets[i], BitLen(max))
  {
    if max != 0 {
      FitsWidths(max);
      WidthsAgree(max);
      BitLenBound(max, 64);
    }
    forall i | 0 <= i < |offsets|
      ensures Bits.Fits(offsets[i], BitLen(max))
    {
      BitLenFits(offsets[i], max);
    }
  }

  /** Thirteen zero bytes are a base of zero, no bits and no words. */
  lemma ForTrivial(input: seq<byte>)
    requires |input| < U32
    ensures ForDecoded(Le(0, 13) + input, |input|) == Ok(input)
  {
    hide PackedLen, FromLe, ForRest;
    LeSplit(0, 8, 5);
    LeSplit(0, 1, 4);
    assert Le(0, 1) == [0];
    assert Le(0, 13) + input == Le(0, 8) + [0] + Le(0, 4) + ([] + input);
    assert PackedLen(0, 0) == 0 by { PackedNothing(); }
    ForRestores(0, [], 0, [], input, |input|);
    assert LeBytes([], 8) + input == input;
  }

  lemma PackedNothing()
    ensures PackedLen(0, 0) == 0
  {
  }

  lemma {:induction false} LeSplit(x: nat, m: nat, n: nat)
    requires x == 0
    ensures Le(x, m + n) == Le(x, m) + Le(x, n)
  {
    if m > 0 {
      LeSplit(x, m - 1, n);
    }
  }

  method AddBase(offsets: seq<nat>, base: nat) returns (ws: seq<nat>)
    ensures ws == Rebased(offsets, base)
  {
    ws := [];
    for k := 0 to |offsets|
      invariant |ws| == k && forall i :: 0 <= i < k ==> ws[i] == (base + offsets[i]) % U64
    {
      ws := ws + [(base + offsets[k]) % U64];
    }
  }

  method ForDecodeBody(body: seq<byte>, expectedLen: nat) returns (r: Result<seq<byte>, CodecError>)
    ensures r == ForDecoded(body, expectedLen)
  {
    hide PackedLen, Chunks, BytesBits, LeBytes, FromLe, Rebased;
    if |body| < 13 {
      return Err(Incomplete(13, |body|));
    }
    var base := Get(body, 0, 8);
    var bits := body[8] as nat;
    if bits > 64 {
      return Err(InvalidData);
    }
    var count := Get(body, 9, 4);
    var rem := SatSub(expectedLen, count * 8);
    var packedLen := PackedLen(count, bits);
    if |body| < 13 + packedLen + rem {
      return Err(Incomplete(13 + packedLen + rem, |body|));
    }
    var packed := body[13..13 + packedLen];
    SliceOfSuffix(body, 13, 0, packedLen);
    var offsets := UnpackAll(packed, bits, count, 128);
    var ws := AddBase(offsets, base);
    var out := WriteWords(ws, 8);
    var tail := body[13 + packedLen..13 + packedLen + rem];
    SliceOfSuffix(body, 13, packedLen, packedLen + rem);
    out := out + tail;
    if |out| != expectedLen {
      return Err(LengthMismatch(expectedLen, |out|));
    }
    r := Ok(out);
  }
}
