/** Choosing a codec: every candidate is tried on the data and must give it back. */
module CodecScorer {
  import opened Core
  import opened CodecFrame
  import CodecRle
  import CodecPack
  import CodecXor

  /** What decoding with a given codec returns: for a body, and for a framed body. */
  ghost function BodyDecoded(id: CodecId, body: seq<byte>, expectedLen: nat): Result<seq<byte>, CodecError> {
    match id
    case Raw => Ok(body)
    case Rle => CodecRle.Expand(body, [], expectedLen)
    case BitPack => CodecPack.BitPackDecoded(body, expectedLen)
    case DeltaFor => CodecPack.ForDecoded(body, expectedLen)
    case Xor => CodecXor.XorDecoded(body, expectedLen)
  }

  ghost function Decoded(id: CodecId, compressed: seq<byte>, expectedLen: nat): Result<seq<byte>, CodecError> {
    var body := VerifyFrame(id, compressed, expectedLen);
    if body.Err? then Err(body.error) else BodyDecoded(id, body.value, expectedLen)
  }

  /** Raw, RLE, BitPack and Delta-FOR always give the data back; XOR gives it back exactly on
      inputs without both-ends differences. */
  ghost predicate Lossless(id: CodecId, input: seq<byte>) {
    id.Xor? ==> CodecXor.Codable(input)
  }

  /** The size of a codec's body, from the input alone. */
  ghost function BodySize(id: CodecId, input: seq<byte>): nat {
    match id
    case Raw => |input|
    case Rle => CodecRle.Size(input, 0)
    case BitPack => CodecPack.BitPackSize(input)
    case DeltaFor => CodecPack.ForSize(input)
    case Xor => CodecXor.XorSize(input)
  }

  method Encode(id: CodecId, input: seq<byte>) returns (r: Result<seq<byte>, CodecError>)
    ensures r.Ok? <==> |input| < U32
    ensures r.Ok? ==> (Decoded(id, r.value, |input|) == Ok(input) <==> Lossless(id, input))
    ensures r.Ok? ==> |r.value| == HEADER + BodySize(id, input)
  {
    hide Decoded, FrameCompressed, CodecRle.Expand, CodecRle.Size, CodecPack.BitPackDecoded, CodecPack.BitPackSize,
         CodecPack.ForDecoded, CodecPack.ForSize, CodecXor.XorDecoded, CodecXor.Codable, CodecXor.XorSize;
    ghost var body := [];
    match id {
      case Raw =>
        body := input;
        r := FrameCompressed(id, |input|, input);
      case Rle =>
        var b := CodecRle.EncodeBody(input);
        body := b;
        r := FrameCompressed(id, |input|, b);
      case BitPack =>
        r := CodecPack.BitPackEncode(input);
        if r.Ok? {
          body :| r == FrameCompressed(id, |input|, body) && CodecPack.BitPackDecoded(body, |input|) == Ok(input)
                  && |body| == CodecPack.BitPackSize(input);
        }
      case DeltaFor =>
        r := CodecPack.ForEncode(input);
        if r.Ok? {
          body :| r == FrameCompressed(id, |input|, body) && CodecPack.ForDecoded(body, |input|) == Ok(input)
                  && |body| == CodecPack.ForSize(input);
        }
      case Xor =>
        r := CodecXor.XorEncode(input);
        if r.Ok? {
          body :| r == FrameCompressed(id, |input|, body)
                  && (CodecXor.XorDecoded(body, |input|) == Ok(input) <==> CodecXor.Codable(input))
                  && |body| == CodecXor.XorSize(input);
        }
    }
    if r.Ok? {
      Framed(id, input, body);
    }
    CodecPack.FrameOutcome(id, |input|, input);
    CodecPack.FrameOutcome(id, |input|, body);
  }

  lemma Framed(id: CodecId, input: seq<byte>, body: seq<byte>)
    requires FrameCompressed(id, |input|, body).Ok?
    ensures var framed := FrameCompressed(id, |input|, body).value;
            |framed| == HEADER + |body| && Decoded(id, framed, |input|) == BodyDecoded(id, body, |input|)
  {
    hide BodyDecoded, VerifyFrame;
    VerifyFramed(id, |input|, body);
  }

  method Decode(id: CodecId, compressed: seq<byte>, expectedLen: nat) returns (r: Result<seq<byte>, CodecError>)
    ensures r == Decoded(id, compressed, expectedLen)
  {
    hide VerifyFrame, CodecRle.Expand, CodecPack.BitPackDecoded, CodecPack.ForDecoded, CodecXor.XorDecoded;
    var body := VerifyFrame(id, compressed, expectedLen);
    if body.Err? {
      return Err(body.error);
    }
    match id {
      case Raw => r := Ok(body.value);
      case Rle => r := CodecRle.DecodeBody(body.value, expectedLen);
      case BitPack => r := CodecPack.BitPackDecodeBody(body.value, expectedLen);
      case DeltaFor => r := CodecPack.ForDecodeBody(body.value, expectedLen);
      case Xor => r := CodecXor.XorDecodeBody(body.value, expectedLen);
    }
  }

  datatype Evaluation = Evaluation(codec: CodecId, compressed: seq<byte>, score: real)

  /** Encodes, decodes and compares; `elapsed` stands for the timing part of the score. */
  method EvaluateCandidate(id: CodecId, data: seq<byte>, elapsed: real) returns (r: Result<Evaluation, CodecError>)
    ensures r.Ok? <==> |data| < U32 && Lossless(id, data)
    ensures r.Ok? ==> r.value.codec == id && Decoded(id, r.value.compressed, |data|) == Ok(data)
    ensures r.Ok? ==> |r.value.compressed| == HEADER + BodySize(id, data)
    ensures r.Ok? ==> r.value.score == |r.value.compressed| as real + elapsed
  {
    hide Decoded, Lossless;
    var compressed := Encode(id, data);
    if compressed.Err? {
      return Err(compressed.error);
    }
    var decoded := Decode(id, compressed.value, |data|);
    if decoded.Err? {
      return Err(decoded.error);
    }
    if decoded.value != data {
      return Err(InvalidData);
    }
    r := Ok(Evaluation(id, compressed.value, |compressed.value| as real + elapsed));
  }

  const CODECS: seq<CodecId> := [Raw, Rle, BitPack, DeltaFor, Xor]

  /** A codec's score, from the input and the timings alone. */
  ghost function Score(id: CodecId, data: seq<byte>, elapsed: CodecId -> real): real {
    (HEADER + BodySize(id, data)) as real + elapsed(id)
  }

  /** A candidate that gives the data back, with its size and score. */
  ghost predicate Proven(e: Evaluation, data: seq<byte>, elapsed: CodecId -> real) {
    && Decoded(e.codec, e.compressed, |data|) == Ok(data) && Lossless(e.codec, data)
    && |e.compressed| == HEADER + BodySize(e.codec, data) && e.score == Score(e.codec, data, elapsed)
  }

  ghost predicate Useful(id: CodecId, data: seq<byte>) {
    Lossless(id, data) && BodySize(id, data) < |data|
  }

  /** The first codec of lowest score among the lossless ones that make the data smaller; Raw when there are none. */
  ghost predicate IsBest(id: CodecId, data: seq<byte>, elapsed: CodecId -> real) {
    && (Useful(id, data) || id == Raw)
    && forall c :: Useful(c, data) ==>
         && Useful(id, data) && Score(id, data, elapsed) <= Score(c, data, elapsed)
         && (c.Code() < id.Code() ==> Score(id, data, elapsed) < Score(c, data, elapsed))
  }

  /** Every lossless codec among the first `upto`, in the order of their codes. */
  ghost predicate Candidates(es: seq<Evaluation>, data: seq<byte>, elapsed: CodecId -> real, upto: nat) {
    && (forall e :: e in es ==> Proven(e, data, elapsed) && e.codec.Code() as nat < upto)
    && (forall i, j :: 0 <= i < j < |es| ==> es[i].codec.Code() < es[j].codec.Code())
    && (forall c: CodecId :: Lossless(c, data) && c.Code() as nat < upto ==>
          exists i :: 0 <= i < |es| && es[i].codec == c)
  }

  lemma CodesInOrder(i: nat)
    requires i < |CODECS|
    ensures CODECS[i].Code() as nat == i && forall c: CodecId :: c.Code() as nat == i ==> c == CODECS[i]
    ensures forall c: CodecId :: c.Code() as nat < |CODECS|
  {
  }

  lemma OneMoreCandidate(es: seq<Evaluation>, e: Evaluation, data: seq<byte>, elapsed: CodecId -> real, i: nat)
    requires i < |CODECS| && Candidates(es, data, elapsed, i) && Proven(e, data, elapsed) && e.codec == CODECS[i]
    ensures Candidates(es + [e], data, elapsed, i + 1)
  {
    hide Proven, Lossless;
    CodesInOrder(i);
    var longer := es + [e];
    assert forall j :: 0 <= j < |es| ==> longer[j] == es[j] && es[j] in es;
    forall c: CodecId | Lossless(c, data) && c.Code() as nat < i + 1
      ensures exists j :: 0 <= j < |longer| && longer[j].codec == c
    {
      if c == CODECS[i] {
        assert longer[|es|].codec == c;
      } else {
        var j :| 0 <= j < |es| && es[j].codec == c;
        assert longer[j].codec == c;
      }
    }
  }

  lemma NoMoreCandidate(es: seq<Evaluation>, data: seq<byte>, elapsed: CodecId -> real, i: nat)
    requires i < |CODECS| && Candidates(es, data, elapsed, i) && !Lossless(CODECS[i], data)
    ensures Candidates(es, data, elapsed, i + 1)
  {
    hide Proven, Lossless;
    CodesInOrder(i);
  }

  /** Raw always comes first. */
  lemma RawFirst(es: seq<Evaluation>, data: seq<byte>, elapsed: CodecId -> real)
    requires Candidates(es, data, elapsed, |CODECS|)
    ensures es != [] && es[0].codec == Raw
  {
    hide Proven, Lossless;
    RawIsLossless(data);
    CodesInOrder(0);
    var i :| 0 <= i < |es| && es[i].codec == Raw;
    assert es[0].codec.Code() <= es[i].codec.Code();
  }

  method EvaluateAll(data: seq<byte>, elapsed: CodecId -> real) returns (es: seq<Evaluation>)
    ensures |data| < U32 ==> Candidates(es, data, elapsed, |CODECS|)
    ensures |data| >= U32 ==> es == []
  {
    hide Decoded, Lossless, BodySize;
    es := [];
    for i := 0 to |CODECS|
      invariant |data| < U32 ==> Candidates(es, data, elapsed, i)
      invariant |data| >= U32 ==> es == []
    {
      hide Candidates;
      var e := EvaluateCandidate(CODECS[i], data, elapsed(CODECS[i]));
      if e.Ok? {
        OneMoreCandidate(es, e.value, data, elapsed, i);
        es := es + [e.value];
      } else if |data| < U32 {
        NoMoreCandidate(es, data, elapsed, i);
      }
    }
  }

  /** Whatever the timings, the chosen codec is the best of all candidates, gives the data back and is no larger
      than Raw; the choice fails exactly on inputs too long for any codec. */
  method SelectBest(data: seq<byte>, elapsed: CodecId -> real) returns (r: Result<Evaluation, CodecError>)
    ensures r.Ok? <==> |data| < U32
    ensures r.Ok? ==> IsBest(r.value.codec, data, elapsed) && Proven(r.value, data, elapsed)
    ensures r.Ok? ==> |r.value.compressed| <= HEADER + |data|
  {
    hide Candidates, IsBest, Decoded, Lossless;
    var es := EvaluateAll(data, elapsed);
    if |data| < U32 {
      RawFirst(es, data, elapsed);
      CandidatesProven(es, data, elapsed);
    }
    if es == [] || es[0].codec != Raw {
      return Err(InvalidData);
    }
    var raw, best := es[0], es[0];
    ghost var winner := 0;
    for i := 0 to |es|
      invariant winner < |es| && best == es[winner] && Leads(es, |raw.compressed|, winner, i)
    {
      var e := es[i];
      if |e.compressed| < |raw.compressed| && (best == raw || e.score < best.score) {
        best, winner := e, i;
      }
    }
    assert raw in es && |raw.compressed| == HEADER + |data|;
    LeaderIsBest(es, winner, data, elapsed);
    r := Ok(best);
  }

  /** Among the first `i` candidates, number `w` is the first of lowest score below the size of Raw, or Raw itself. */
  ghost predicate Leads(es: seq<Evaluation>, size: nat, w: nat, i: nat)
    requires w < |es| && i <= |es|
  {
    && (w == 0 || (w < i && |es[w].compressed| < size))
    && forall j :: 0 <= j < i && |es[j].compressed| < size ==>
         |es[w].compressed| < size && es[w].score <= es[j].score && (j < w ==> es[w].score < es[j].score)
  }

  lemma LeaderIsBest(es: seq<Evaluation>, w: nat, data: seq<byte>, elapsed: CodecId -> real)
    requires Candidates(es, data, elapsed, |CODECS|) && es != [] && es[0].codec == Raw
    requires w < |es| && Leads(es, HEADER + |data|, w, |es|)
    ensures IsBest(es[w].codec, data, elapsed) && Proven(es[w], data, elapsed)
    ensures |es[w].compressed| <= HEADER + |data|
  {
    hide Candidates, Proven, Useful, Score, Leads;
    CandidatesProven(es, data, elapsed);
    assert es[w] in es && es[0] in es;
    LeaderIsUseful(es, w, data, elapsed);
    forall c | Useful(c, data)
      ensures Useful(es[w].codec, data) && Score(es[w].codec, data, elapsed) <= Score(c, data, elapsed)
      ensures c.Code() < es[w].codec.Code() ==> Score(es[w].codec, data, elapsed) < Score(c, data, elapsed)
    {
      var j := Found(es, w, data, elapsed, c);
      assert es[j] in es;
      LeaderBeats(es, w, j, data, elapsed);
    }
  }

  lemma LeaderIsUseful(es: seq<Evaluation>, w: nat, data: seq<byte>, elapsed: CodecId -> real)
    requires w < |es| && Leads(es, HEADER + |data|, w, |es|) && es[0].codec == Raw
    requires Proven(es[0], data, elapsed) && Proven(es[w], data, elapsed)
    ensures Useful(es[w].codec, data) || es[w].codec == Raw
    ensures |es[w].compressed| <= HEADER + |data|
  {
    hide Decoded, Lossless, Score;
  }

  lemma Found(es: seq<Evaluation>, w: nat, data: seq<byte>, elapsed: CodecId -> real, c: CodecId) returns (j: nat)
    requires Candidates(es, data, elapsed, |CODECS|) && w < |es| && Useful(c, data)
    ensures j < |es| && es[j].codec == c && (c.Code() < es[w].codec.Code() ==> j < w)
  {
    hide Proven, Lossless, BodySize;
    CodesInOrder(0);
    j :| 0 <= j < |es| && es[j].codec == c;
  }

  lemma LeaderBeats(es: seq<Evaluation>, w: nat, j: nat, data: seq<byte>, elapsed: CodecId -> real)
    requires w < |es| && j < |es| && Leads(es, HEADER + |data|, w, |es|)
    requires Proven(es[w], data, elapsed) && Proven(es[j], data, elapsed) && Useful(es[j].codec, data)
    ensures Useful(es[w].codec, data) && Score(es[w].codec, data, elapsed) <= Score(es[j].codec, data, elapsed)
    ensures j < w ==> Score(es[w].codec, data, elapsed) < Score(es[j].codec, data, elapsed)
  {
    hide Decoded, Lossless, BodySize, Score;
  }

  lemma CandidatesProven(es: seq<Evaluation>, data: seq<byte>, elapsed: CodecId -> real)
    requires Candidates(es, data, elapsed, |CODECS|)
    ensures forall e :: e in es ==> Proven(e, data, elapsed)
  {
  }

  lemma RawIsLossless(data: seq<byte>)
    ensures Lossless(Raw, data)
  {
  }
}
