/** Bit-at-a-time writer and reader over a growing byte vector. */
module BitStream {
  import opened Core
  import opened Bits
  import opened BitPacking

  class BitWriter {
    var buf: seq<byte>
    var bitBuf: nat
    var bitCount: nat

    ghost predicate Valid()
      reads this
    {
      bitCount < 8 && Fits(bitBuf, bitCount)
    }

    /** Every bit written so far, those of the bytes already in the vector included. */
    ghost function Written(): seq<bool>
      reads this
    {
      Held(buf, bitBuf, bitCount)
    }

    constructor (buf: seq<byte>)
      ensures Valid() && this.buf == buf && Written() == BytesBits(buf)
    {
      this.buf, bitBuf, bitCount := buf, 0, 0;
    }

    method WriteBit(bit: nat)
      requires Valid() && bit <= 1
      modifies this
      ensures Valid() && Written() == old(Written()) + [bit == 1] && old(buf) <= buf
    {
      hide Held, Fits, Or, Shl, Truncated, ToBits;
      OneBit(bit);
      OneBitShifted(bit, bitCount);
      HeldAfterWord(buf, bitBuf, bitCount, bit, 1, 64);
      bitBuf := Or(bitBuf, Shl(bit, bitCount));
      bitCount := bitCount + 1;
      if bitCount == 8 {
        HeldAfterEmit(buf, bitBuf, 8);
        EmptyAfterByte(bitBuf);
        buf := buf + [Truncated(bitBuf)];
        bitBuf, bitCount := 0, 0;
      }
    }

    method WriteBits(val: nat, count: nat)
      requires Valid()
      modifies this
      ensures Valid() && Written() == old(Written()) + ToBits(val, count) && old(buf) <= buf
    {
      hide Held, Fits, Shr, ToBits;
      NoBitsYet(val);
      for i := 0 to count
        invariant Valid() && Written() == old(Written()) + ToBits(val, i) && old(buf) <= buf
      {
        NextBit(val, i);
        WriteBit(Shr(val, i) % 2);
      }
    }

    /** Pads the last partial byte with zeros. */
    method Flush()
      requires Valid()
      modifies this
      ensures Valid() && old(Written()) <= BytesBits(buf) && old(buf) <= buf
      ensures |buf| == CeilDiv(|old(Written())|, 8)
    {
      HeldSize(buf, bitBuf, bitCount);
      if bitCount > 0 {
        HeldAfterFlush(buf, bitBuf, bitCount);
        buf := buf + [Truncated(bitBuf)];
        bitBuf, bitCount := 0, 0;
      } else {
        HeldExactly(buf, bitBuf);
      }
    }
  }

  lemma OneBit(bit: nat)
    requires bit <= 1
    ensures Fits(bit, 1) && ToBits(bit, 1) == [bit == 1]
  {
    assert ToBits(bit / 2, 0) == [];
  }

  /** A single bit shifted by less than a byte stays below the buffer's width. */
  lemma OneBitShifted(bit: nat, n: nat)
    requires bit <= 1 && n < 8
    ensures Low(Shl(bit, n), 64) == Shl(bit, n)
  {
    ShlFits(bit, 1, n);
    FitsMore(Shl(bit, n), 1 + n, 64);
    FromToBits(Shl(bit, n), 64);
  }

  lemma {:induction false} ShlFits(x: nat, m: nat, n: nat)
    requires Fits(x, m)
    ensures Fits(Shl(x, n), m + n)
  {
    if n > 0 {
      ShlFits(x, m, n - 1);
    }
  }

  lemma EmptyAfterByte(x: nat)
    requires Fits(x, 8)
    ensures Shr(x, 8) == 0 && Fits(0, 0)
  {
  }

  lemma NoBitsYet(val: nat)
    ensures ToBits(val, 0) == []
  {
  }

  lemma NextBit(val: nat, i: nat)
    ensures ToBits(val, i + 1) == ToBits(val, i) + [Shr(val, i) % 2 == 1]
  {
    ToBitsSplit(val, i, 1);
    assert ToBits(Shr(val, i) / 2, 0) == [];
  }

  datatype End = End

  class BitReader {
    const slice: seq<byte>
    var byteIdx: nat
    var bitBuf: nat
    var bitCount: nat

    ghost predicate Valid()
      reads this
    {
      byteIdx <= |slice| && bitCount <= 8 && Fits(bitBuf, bitCount)
    }

    /** The bits not read yet. */
    ghost function Unread(): seq<bool>
      reads this
      requires Valid()
    {
      Ahead(bitBuf, bitCount, slice, byteIdx)
    }

    constructor (slice: seq<byte>)
      ensures Valid() && Unread() == BytesBits(slice)
    {
      this.slice, byteIdx, bitBuf, bitCount := slice, 0, 0, 0;
      new;
      AheadStart(slice);
    }

    method ReadBit() returns (r: Result<nat, End>)
      requires Valid()
      modifies this
      ensures Valid()
      ensures old(Unread()) == [] ==> r.Err? && Unread() == []
      ensures old(Unread()) != [] ==> r.Ok? && r.value == (if old(Unread())[0] then 1 else 0)
                                      && Unread() == old(Unread())[1..]
    {
      hide Ahead, Fits;
      AheadSize(bitBuf, bitCount, slice, byteIdx);
      if bitCount == 0 {
        if byteIdx >= |slice| {
          return Err(End);
        }
        LoadByte(bitBuf, slice, byteIdx);
        bitBuf := slice[byteIdx] as nat;
        byteIdx := byteIdx + 1;
        bitCount := 8;
      }
      TakeBit(bitBuf, bitCount, slice, byteIdx);
      var bit := bitBuf % 2;
      bitBuf := bitBuf / 2;
      bitCount := bitCount - 1;
      r := Ok(bit);
    }

    /** Reads `count` bits, least significant first. */
    method ReadBits(count: nat) returns (r: Result<nat, End>)
      requires Valid()
      modifies this
      ensures Valid()
      ensures |old(Unread())| < count <==> r.Err?
      ensures r.Ok? ==> r.value == FromBits(old(Unread())[..count]) && Unread() == old(Unread())[count..]
    {
      hide Ahead, Fits, FromBits;
      var res := 0;
      ghost var all := Unread();
      FromNoBits();
      for i := 0 to count
        invariant Valid() && i <= |all| && Unread() == all[i..]
        invariant res == FromBits(all[..i])
      {
        var b := ReadBit();
        if b.Err? {
          return Err(End);
        }
        assert all[..i + 1] == all[..i] + [all[i]];
        FromBitsSnoc(all[..i], all[i]);
        res := Or(res, Shl(b.value, i));
      }
      r := Ok(res);
    }
  }

  lemma FromNoBits()
    ensures FromBits([]) == 0
  {
  }

  /** Setting the next higher bit appends it. */
  lemma FromBitsSnoc(s: seq<bool>, b: bool)
    ensures FromBits(s + [b]) == Or(FromBits(s), Shl(if b then 1 else 0, |s|))
  {
    hide Or, Shl, Low, ToBits, FromBits, Fits;
    var x, w, n := FromBits(s), if b then 1 else 0, |s|;
    ToFromBits(s);
    OneBit(w);
    Accumulate(x, w, n, 1, n + 1);
    ShlFits(w, 1, n);
    FromToBits(Shl(w, n), n + 1);
    var r := Or(x, Shl(w, n));
    assert ToBits(r, n + 1) == s + [b];
    FromToBits(r, n + 1);
  }

  lemma LoadByte(buf: nat, slice: seq<byte>, i: nat)
    requires i < |slice| && Fits(buf, 0)
    ensures Fits(slice[i] as nat, 8) && Ahead(slice[i] as nat, 8, slice, i + 1) == Ahead(buf, 0, slice, i)
  {
    hide ToBits;
    ByteFits(slice[i]);
    assert slice[i..][1..] == slice[i + 1..];
    NoBitsYet(buf);
  }

  lemma TakeBit(buf: nat, count: nat, slice: seq<byte>, i: nat)
    requires i <= |slice| && count > 0 && Fits(buf, count)
    ensures var s := Ahead(buf, count, slice, i);
            && s != [] && (buf % 2 == if s[0] then 1 else 0)
            && Ahead(buf / 2, count - 1, slice, i) == s[1..]
            && Fits(buf / 2, count - 1)
  {
    hide BytesBits;
  }
}
