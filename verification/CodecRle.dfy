/** Run-length coding: runs of 3 to 130 equal bytes, literal stretches of 1 to 128. */
module CodecRle {
  import opened Core
  import opened CodecFrame

  datatype Token = Run(n: nat, b: byte) | Literals(s: seq<byte>) {
    predicate Ok() {
      match this
      case Run(n, _) => 3 <= n <= 130
      case Literals(s) => 1 <= |s| <= 128
    }

    function Value(): seq<byte> {
      match this
      case Run(n, b) => Repeat(b, n)
      case Literals(s) => s
    }

    function Encoded(): seq<byte>
      requires Ok()
    {
      match this
      case Run(n, b) => [(0x80 + (n - 3)) as byte, b]
      case Literals(s) => [(|s| - 1) as byte] + s
    }
  }

  function Repeat(b: byte, n: nat): (r: seq<byte>)
    ensures |r| == n && forall i :: 0 <= i < n ==> r[i] == b
  {
    if n == 0 then [] else Repeat(b, n - 1) + [b]
  }

  function Values(ts: seq<Token>): seq<byte> {
    if ts == [] then [] else ts[0].Value() + Values(ts[1..])
  }

  function Encodings(ts: seq<Token>): seq<byte>
    requires forall t :: t in ts ==> t.Ok()
  {
    if ts == [] then [] else ts[0].Encoded() + Encodings(ts[1..])
  }

  /** The decoder's loop, from the point where `out` has been produced and `body` remains. */
  function Expand(body: seq<byte>, out: seq<byte>, expectedLen: nat): Result<seq<byte>, CodecError>
    decreases |body|
  {
    if body == [] then
      if |out| != expectedLen then Err(LengthMismatch(expectedLen, |out|)) else Ok(out)
    else if body[0] >= 0x80 then
      var n := (body[0] - 0x80) as nat + 3;
      if |body| < 2 then Err(InvalidData)
      else if |out| + n > expectedLen then Err(InvalidData)
      else Expand(body[2..], out + Repeat(body[1], n), expectedLen)
    else
      var n := body[0] as nat + 1;
      if 1 + n > |body| then Err(InvalidData)
      else if |out| + n > expectedLen then Err(InvalidData)
      else Expand(body[1 + n..], out + body[1..1 + n], expectedLen)
  }

  lemma {:induction false} ExpandTokens(ts: seq<Token>, out: seq<byte>, expectedLen: nat)
    requires forall t :: t in ts ==> t.Ok()
    requires |out + Values(ts)| == expectedLen
    ensures Expand(Encodings(ts), out, expectedLen) == Ok(out + Values(ts))
    decreases |ts|
  {
    if ts == [] {
      assert out + Values(ts) == out;
    } else {
      var t, rest := ts[0], ts[1..];
      assert t in ts && forall u :: u in rest ==> u in ts;
      var body := Encodings(ts);
      assert out + (t.Value() + Values(rest)) == (out + t.Value()) + Values(rest);
      ExpandTokens(rest, out + t.Value(), expectedLen);
      ExpandOne(t, Encodings(rest), out, expectedLen);
    }
  }

  /** The decoder undoes one token. */
  lemma ExpandOne(t: Token, more: seq<byte>, out: seq<byte>, expectedLen: nat)
    requires t.Ok() && |out| + |t.Value()| <= expectedLen
    ensures Expand(t.Encoded() + more, out, expectedLen) == Expand(more, out + t.Value(), expectedLen)
  {
    var body := t.Encoded() + more;
    match t {
      case Run(n, b) =>
        assert body[2..] == more;
      case Literals(s) =>
        assert body[1..1 + |s|] == s;
        assert body[1 + |s|..] == more;
    }
  }

  lemma {:induction false} ValuesAppend(ts: seq<Token>, t: Token)
    ensures Values(ts + [t]) == Values(ts) + t.Value()
  {
    hide Token.Value;
    if ts == [] {
      assert (ts + [t])[1..] == [];
    } else {
      ValuesAppend(ts[1..], t);
      assert (ts + [t])[1..] == ts[1..] + [t];
    }
  }

  lemma {:induction false} EncodingsAppend(ts: seq<Token>, t: Token)
    requires forall u :: u in ts ==> u.Ok()
    requires t.Ok()
    ensures Encodings(ts + [t]) == Encodings(ts) + t.Encoded()
  {
    hide Token.Encoded;
    if ts == [] {
      assert (ts + [t])[1..] == [];
    } else {
      assert forall u :: u in ts[1..] ==> u in ts;
      EncodingsAppend(ts[1..], t);
      assert (ts + [t])[1..] == ts[1..] + [t];
    }
  }

  /** A run of at least three equal bytes starts at `i`. */
  predicate RunAt(s: seq<byte>, i: nat) {
    i + 2 < |s| && s[i] == s[i + 1] && s[i] == s[i + 2]
  }

  /** A run at `i` of which `n` bytes are known, extended as far as it goes, to at most 130. */
  function RunLength(input: seq<byte>, i: nat, n: nat): (r: nat)
    requires i < |input| && i + n <= |input|
    ensures n <= r && i + r <= |input|
    decreases |input| - i - n
  {
    if i + n < |input| && input[i + n] == input[i] && n < 130 then RunLength(input, i, n + 1) else n
  }

  /** Literals from `i`, of which `n` are taken, extended to at most 128 and up to where a run starts. */
  function LiteralLength(input: seq<byte>, i: nat, n: nat): (r: nat)
    requires i + n <= |input|
    ensures n <= r && i + r <= |input|
    decreases |input| - i - n
  {
    if i + n < |input| && n < 128 && !RunAt(input, i + n) then LiteralLength(input, i, n + 1) else n
  }

  /** The size of the body for the bytes from `i` on: two bytes a run, one byte more than its length a stretch of
      literals. */
  function Size(input: seq<byte>, i: nat): nat
    requires i <= |input|
    decreases |input| - i
  {
    if i == |input| then 0
    else if RunAt(input, i) then 2 + Size(input, i + RunLength(input, i, 1))
    else 1 + LiteralLength(input, i, 1) + Size(input, i + LiteralLength(input, i, 1))
  }

  /** How many bytes from `i` on equal the one at `i`, counting at most 130. */
  method CountRun(input: seq<byte>, i: nat) returns (n: nat)
    requires i < |input|
    ensures 1 <= n <= 130 && i + n <= |input|
    ensures input[i..i + n] == Repeat(input[i], n)
    ensures n >= 3 <==> RunAt(input, i)
    ensures n == RunLength(input, i, 1)
  {
    n := 1;
    while i + n < |input| && input[i + n] == input[i] && n < 130
      invariant 1 <= n <= 130 && i + n <= |input|
      invariant forall j :: i <= j < i + n ==> input[j] == input[i]
      invariant RunLength(input, i, n) == RunLength(input, i, 1)
    {
      n := n + 1;
    }
  }

  /** How many literals to take: at least one, up to 128, stopping where a run starts. */
  method CountLiterals(input: seq<byte>, i: nat) returns (n: nat)
    requires i < |input| && !RunAt(input, i)
    ensures 1 <= n <= 128 && i + n <= |input|
    ensures n < 128 ==> i + n == |input| || RunAt(input, i + n)
    ensures n == LiteralLength(input, i, 1)
  {
    n := 0;
    while i + n < |input| && n < 128
      invariant 0 <= n <= 128 && i + n <= |input|
      invariant n == 0 ==> !RunAt(input, i)
      invariant n > 0 ==> LiteralLength(input, i, n) == LiteralLength(input, i, 1)
    {
      if i + n + 2 < |input| && input[i + n] == input[i + n + 1] && input[i + n] == input[i + n + 2] {
        break;
      }
      n := n + 1;
    }
  }

  /** One turn of the encoder's loop: the token that covers the next bytes. */
  method NextToken(input: seq<byte>, i: nat) returns (chunk: seq<byte>, n: nat, ghost t: Token)
    requires i < |input|
    ensures 1 <= n && i + n <= |input| && t.Ok()
    ensures t.Value() == input[i..i + n] && chunk == t.Encoded()
    ensures RunAt(input, i) ==> n >= 3 && |chunk| == 2
    ensures !RunAt(input, i) ==> |chunk| == n + 1 && n <= 128
    ensures !RunAt(input, i) && n < 128 ==> i + n == |input| || RunAt(input, i + n)
    ensures Size(input, i) == |chunk| + Size(input, i + n)
  {
    n := CountRun(input, i);
    if n >= 3 {
      t := Run(n, input[i]);
      chunk := [(0x80 + (n - 3)) as byte, input[i]];
    } else {
      n := CountLiterals(input, i);
      t := Literals(input[i..i + n]);
      chunk := [(n - 1) as byte] + input[i..i + n];
    }
  }

  /** The size bound after `i` input bytes; `short` when the last token is a literal stretch of less than 128. */
  ghost predicate Small(size: nat, i: nat, short: bool) {
    size <= i + if short then CeilDiv(i, 128) else i / 128
  }

  /** The encoder's loop. The body decodes to the input and exceeds it by at most one byte in 128. */
  method EncodeBody(input: seq<byte>) returns (body: seq<byte>)
    ensures Expand(body, [], |input|) == Ok(input)
    ensures |body| == Size(input, 0) <= |input| + CeilDiv(|input|, 128)
  {
    hide RunAt, Token.Value, Token.Encoded, Token.Ok, Expand;
    body := [];
    var i := 0;
    ghost var ts: seq<Token> := [];
    ghost var short := false;
    while i < |input|
      invariant 0 <= i <= |input|
      invariant forall t :: t in ts ==> t.Ok()
      invariant body == Encodings(ts) && input[..i] == Values(ts)
      invariant Small(|body|, i, short) && |body| + Size(input, i) == Size(input, 0)
      invariant short && i < |input| ==> RunAt(input, i)
    {
      var chunk, n, t := NextToken(input, i);
      ValuesAppend(ts, t);
      EncodingsAppend(ts, t);
      assert input[..i + n] == input[..i] + input[i..i + n];
      SmallStep(|body|, i, short, RunAt(input, i), |chunk|, n);
      short := !RunAt(input, i) && n < 128;
      body := body + chunk;
      ts := ts + [t];
      i := i + n;
    }
    assert input[..i] == input;
    ExpandTokens(ts, [], |input|);
    assert [] + Values(ts) == Values(ts);
  }

  lemma SmallStep(size: nat, i: nat, short: bool, run: bool, chunk: nat, n: nat)
    requires Small(size, i, short) && (short ==> run)
    requires run ==> n >= 3 && chunk == 2
    requires !run ==> 1 <= n <= 128 && chunk == n + 1
    ensures Small(size + chunk, i + n, !run && n < 128)
  {
  }

  /** The decoder's loop, one tag at position `i`. */
  lemma ExpandRun(body: seq<byte>, i: nat, out: seq<byte>, expectedLen: nat, n: nat)
    requires i < |body| && body[i] >= 0x80 && n == (body[i] - 0x80) as nat + 3
    ensures Expand(body[i..], out, expectedLen) ==
            if i + 1 >= |body| || |out| + n > expectedLen then Err(InvalidData)
            else Expand(body[i + 2..], out + Repeat(body[i + 1], n), expectedLen)
  {
    var rest := body[i..];
    assert |rest| >= 2 ==> rest[2..] == body[i + 2..];
  }

  lemma ExpandLiterals(body: seq<byte>, i: nat, out: seq<byte>, expectedLen: nat, n: nat)
    requires i < |body| && body[i] < 0x80 && n == body[i] as nat + 1
    ensures Expand(body[i..], out, expectedLen) ==
            if i + 1 + n > |body| || |out| + n > expectedLen then Err(InvalidData)
            else Expand(body[i + 1 + n..], out + body[i + 1..i + 1 + n], expectedLen)
  {
    var rest := body[i..];
    if 1 + n <= |rest| {
      assert rest[1 + n..] == body[i + 1 + n..] && rest[1..1 + n] == body[i + 1..i + 1 + n];
    }
  }

  lemma ExpandEnd(out: seq<byte>, expectedLen: nat)
    ensures Expand([], out, expectedLen) ==
            if |out| != expectedLen then Err(LengthMismatch(expectedLen, |out|)) else Ok(out)
  {
  }

  /** The decoder's loop computes `Expand`. */
  method DecodeBody(body: seq<byte>, expectedLen: nat) returns (r: Result<seq<byte>, CodecError>)
    ensures r == Expand(body, [], expectedLen)
  {
    hide Expand, Repeat;
    var out: seq<byte> := [];
    var i := 0;
    assert body[0..] == body;
    while i < |body|
      invariant 0 <= i <= |body|
      invariant Expand(body[i..], out, expectedLen) == Expand(body, [], expectedLen)
    {
      var tag := body[i];
      if tag >= 0x80 {
        var n := (tag - 0x80) as nat + 3;
        ExpandRun(body, i, out, expectedLen, n);
        i := i + 1;
        if i >= |body| {
          return Err(InvalidData);
        }
        var b := body[i];
        i := i + 1;
        if |out| + n > expectedLen {
          return Err(InvalidData);
        }
        out := out + Repeat(b, n);
      } else {
        var n := tag as nat + 1;
        ExpandLiterals(body, i, out, expectedLen, n);
        i := i + 1;
        if i + n > |body| {
          return Err(InvalidData);
        }
        if |out| + n > expectedLen {
          return Err(InvalidData);
        }
        out := out + body[i..i + n];
        i := i + n;
      }
    }
    assert body[i..] == [];
    ExpandEnd(out, expectedLen);
    if |out| != expectedLen {
      return Err(LengthMismatch(expectedLen, |out|));
    }
    r := Ok(out);
  }
}
