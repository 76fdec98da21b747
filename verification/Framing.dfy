/** The Length-Prefixed-Message format of gRPC over HTTP/2 and a one-shot parser for it. */
module Framing {
  import opened Bytes
  import opened Compression
  import opened LinkedBuffers
  import opened Statuses
  import Decimal

  const PREFIX_LEN: nat := 5

  /** A message codec (protobuf): encoding is a run of buffer writes; errors carry their text. */
  datatype Codec<!M> = Codec(
    encode: M -> Result<seq<Piece>, bytes>,
    decode: bytes -> Result<M, bytes>
  )

  /** What protobuf promises: decoding inverts encoding. */
  ghost predicate CodecLawful<M(!new)>(codec: Codec<M>) {
    forall m :: codec.encode(m).Ok? ==> codec.decode(Content(codec.encode(m).value)) == Ok(m)
  }

  function Prefix(compressed: bool, len: nat): (r: bytes)
    requires len <= U32_MAX
    ensures |r| == PREFIX_LEN
  {
    [if compressed then 1 else 0] + PutU32(len)
  }

  /** Receiver configuration: message codec, compression libraries and negotiated encoding. */
  datatype Receiver<!M> = Receiver(codec: Codec<M>, lib: Libraries, encoding: Option<Encoding>)

  /** What a body belongs to; a response has an HTTP status and the text it is displayed as. */
  datatype Kind = Request | Response(http: nat, shown: bytes)

  // ---- errors --------------------------------------------------------------------------------

  /** What can be wrong with a frame. */
  datatype FrameError =
    | FlagWithoutEncoding
    | InvalidFlag(flag: byte)
    | NotDecompressed(text: bytes)
    | NotDecoded(text: bytes)

  /** The status each of them is reported with. */
  function ErrorStatus(kind: Kind, e: FrameError): Status {
    New(Internal,
        match e
        case FlagWithoutEncoding =>
          B("protocol error: received message with compressed-flag but no grpc-encoding was specified")
        case InvalidFlag(flag) =>
          B("protocol error: received message with invalid compression flag: ") + Decimal.Digits(flag)
          + B(" (valid flags are 0 and 1), while sending request")
        case NotDecompressed(text) =>
          B("Error decompressing: ") + text
          + (match kind
             case Request => B(", while sending request")
             case Response(_, shown) => B(", while receiving response with status: ") + shown)
        case NotDecoded(text) => text)
  }

  function UnexpectedEof(): Status {
    New(Internal, B("Unexpected EOF decoding stream."))
  }

  // ---- one-shot parser -----------------------------------------------------------------------

  /** What a compression flag selects. */
  function FlagEncoding<M>(rx: Receiver<M>, flag: byte): Result<Option<Encoding>, FrameError> {
    if flag == 0 then Ok(None)
    else if flag == 1 then
      if rx.encoding.Some? then Ok(rx.encoding) else Err(FlagWithoutEncoding)
    else Err(InvalidFlag(flag))
  }

  function DecodePayload<M>(rx: Receiver<M>, e: Option<Encoding>, payload: bytes): Result<M, FrameError> {
    var plain := if e.None? then Ok(payload) else Decompress(rx.lib, e.value, payload);
    match plain
    case Err(text) => Err(NotDecompressed(text))
    case Ok(data) =>
      match rx.codec.decode(data)
      case Err(text) => Err(NotDecoded(text))
      case Ok(m) => Ok(m)
  }

  /** The first frame of a byte string. */
  datatype FrameResult<M> = Incomplete | Malformed(error: FrameError) | Complete(message: M, size: nat)

  function NextFrame<M>(rx: Receiver<M>, s: bytes): (r: FrameResult<M>)
    ensures r.Complete? ==> PREFIX_LEN <= r.size <= |s|
  {
    if |s| < PREFIX_LEN then Incomplete
    else
      match FlagEncoding(rx, s[0])
      case Err(error) => Malformed(error)
      case Ok(e) =>
        var end := PREFIX_LEN + GetU32(s[1..PREFIX_LEN]);
        if |s| < end then Incomplete
        else
          match DecodePayload(rx, e, s[PREFIX_LEN..end])
          case Err(error) => Malformed(error)
          case Ok(m) => Complete(m, end)
  }

  /** Which frames are refused, byte by byte: a flag above 1; flag 1 where no encoding is known; and,
      once complete, a payload that does not decompress or does not decode. */
  lemma RefusedExactly<M>(rx: Receiver<M>, s: bytes)
    requires |s| >= 5
    ensures var r := NextFrame(rx, s);
            var len := GetU32(s[1..5]);
            && (s[0] > 1 ==> r == Malformed(InvalidFlag(s[0])))
            && (s[0] == 1 && rx.encoding.None? ==> r == Malformed(FlagWithoutEncoding))
            && (s[0] == 0 ==>
                  && (r == Incomplete <==> |s| < 5 + len)
                  && (|s| >= 5 + len ==>
                        match rx.codec.decode(s[5..5 + len])
                        case Ok(m) => r == Complete(m, 5 + len)
                        case Err(text) => r == Malformed(NotDecoded(text))))
            && (s[0] == 1 && rx.encoding.Some? ==>
                  && (r == Incomplete <==> |s| < 5 + len)
                  && (|s| >= 5 + len ==>
                        match Decompress(rx.lib, rx.encoding.value, s[5..5 + len])
                        case Err(text) => r == Malformed(NotDecompressed(text))
                        case Ok(data) =>
                          match rx.codec.decode(data)
                          case Ok(m) => r == Complete(m, 5 + len)
                          case Err(text) => r == Malformed(NotDecoded(text))))
  {
    hide GetU32, Decompress;
  }

  /** What a decoder goes on with after a malformed frame: a bad flag costs one byte, while the
      header of a bad payload stays in force and is applied to the bytes that follow. */
  function AfterError<M>(rx: Receiver<M>, s: bytes): bytes
    requires NextFrame(rx, s).Malformed?
  {
    if FlagEncoding(rx, s[0]).Err? then s[1..]
    else s[..PREFIX_LEN] + s[PREFIX_LEN + GetU32(s[1..PREFIX_LEN])..]
  }

  /** All messages of a byte string, and what stops the parse: an error or an unfinished rest. */
  datatype Parsed<M> = Parsed(messages: seq<M>, stop: Stop)

  datatype Stop = Bad(error: FrameError) | Rest(bytes: bytes)

  function Parse<M>(rx: Receiver<M>, s: bytes): (r: Parsed<M>)
    decreases |s|
  {
    match NextFrame(rx, s)
    case Incomplete => Parsed([], Rest(s))
    case Malformed(error) => Parsed([], Bad(error))
    case Complete(m, size) =>
      var tail := Parse(rx, s[size..]);
      Parsed([m] + tail.messages, tail.stop)
  }

  /** More bytes never change a frame that is already decided. */
  lemma NextFrameStable<M>(rx: Receiver<M>, s: bytes, more: bytes)
    requires !NextFrame(rx, s).Incomplete?
    ensures NextFrame(rx, s + more) == NextFrame(rx, s)
  {
    hide DecodePayload, FlagEncoding, GetU32;
    assert (s + more)[0] == s[0];
    assert (s + more)[1..PREFIX_LEN] == s[1..PREFIX_LEN];
    var end := PREFIX_LEN + GetU32(s[1..PREFIX_LEN]);
    if end <= |s| {
      assert (s + more)[PREFIX_LEN..end] == s[PREFIX_LEN..end];
    }
  }

  lemma AfterErrorStable<M>(rx: Receiver<M>, s: bytes, more: bytes)
    requires NextFrame(rx, s).Malformed?
    ensures NextFrame(rx, s + more).Malformed?
    ensures AfterError(rx, s + more) == AfterError(rx, s) + more
  {
    hide DecodePayload, FlagEncoding, GetU32;
    NextFrameStable(rx, s, more);
    assert (s + more)[0] == s[0];
    assert (s + more)[1..PREFIX_LEN] == s[1..PREFIX_LEN];
    assert (s + more)[1..] == s[1..] + more;
    if FlagEncoding(rx, s[0]).Ok? {
      var end := PREFIX_LEN + GetU32(s[1..PREFIX_LEN]);
      assert (s + more)[..PREFIX_LEN] == s[..PREFIX_LEN];
      assert (s + more)[end..] == s[end..] + more;
    }
  }

  /** A bad payload is reported again and again, without progress, exactly when it is empty. */
  lemma ErrorRepeatsExactlyWhenEmpty<M>(rx: Receiver<M>, s: bytes)
    requires NextFrame(rx, s).Malformed? && FlagEncoding(rx, s[0]).Ok?
    ensures AfterError(rx, s) == s <==> GetU32(s[1..PREFIX_LEN]) == 0
  {
    hide DecodePayload, FlagEncoding, GetU32;
    var end := PREFIX_LEN + GetU32(s[1..PREFIX_LEN]);
    assert s == s[..PREFIX_LEN] + s[PREFIX_LEN..];
    assert |AfterError(rx, s)| == |s| - (end - PREFIX_LEN);
  }

  lemma ParseStep<M>(rx: Receiver<M>, s: bytes)
    ensures NextFrame(rx, s).Incomplete? ==> Parse(rx, s) == Parsed([], Rest(s))
    ensures NextFrame(rx, s).Malformed? ==> Parse(rx, s) == Parsed([], Bad(NextFrame(rx, s).error))
    ensures NextFrame(rx, s).Complete? ==>
              var tail := Parse(rx, s[NextFrame(rx, s).size..]);
              Parse(rx, s) == Parsed([NextFrame(rx, s).message] + tail.messages, tail.stop)
  {
    hide NextFrame;
  }

  /** Parsing can be stopped after any prefix and resumed with the unfinished rest. */
  lemma {:induction false} ParseConcat<M>(rx: Receiver<M>, s: bytes, more: bytes)
    ensures Parse(rx, s).stop.Rest? ==>
              var p, q := Parse(rx, s), Parse(rx, Parse(rx, s).stop.bytes + more);
              Parse(rx, s + more) == Parsed(p.messages + q.messages, q.stop)
    ensures Parse(rx, s).stop.Bad? ==> Parse(rx, s + more) == Parse(rx, s)
    decreases |s|
  {
    hide NextFrame, Parse;
    ParseStep(rx, s);
    match NextFrame(rx, s)
    case Incomplete =>
      var q := Parse(rx, s + more);
      assert [] + q.messages == q.messages;
    case Malformed(_) =>
      NextFrameStable(rx, s, more);
      ParseStep(rx, s + more);
    case Complete(m, size) =>
      NextFrameStable(rx, s, more);
      ParseStep(rx, s + more);
      assert (s + more)[size..] == s[size..] + more;
      ParseConcat(rx, s[size..], more);
      var tail := Parse(rx, s[size..]);
      if tail.stop.Rest? {
        ConcatAssoc([m], tail.messages, Parse(rx, tail.stop.bytes + more).messages);
      }
  }

  /** The unfinished rest of a parse contains no complete frame. */
  lemma {:induction false} RestIncomplete<M>(rx: Receiver<M>, s: bytes)
    requires Parse(rx, s).stop.Rest?
    ensures NextFrame(rx, Parse(rx, s).stop.bytes) == Incomplete
    decreases |s|
  {
    hide NextFrame;
    match NextFrame(rx, s)
    case Incomplete =>
    case Malformed(_) =>
    case Complete(_, size) => RestIncomplete(rx, s[size..]);
  }

  // ---- valid encodings -----------------------------------------------------------------------

  /** One framed payload. */
  function Frame(compressed: bool, payload: bytes): bytes
    requires |payload| <= U32_MAX
  {
    Prefix(compressed, |payload|) + payload
  }

  predicate Fit(payloads: seq<bytes>) {
    forall i :: 0 <= i < |payloads| ==> |payloads[i]| <= U32_MAX
  }

  /** The Length-Prefixed-Message of gRPC over HTTP/2, byte by byte: the flag, the length with its
      most significant byte first, the payload. */
  lemma FrameOnWire(compressed: bool, payload: bytes)
    requires |payload| <= U32_MAX
    ensures var f := Frame(compressed, payload);
            && |f| == 5 + |payload| && f[5..] == payload
            && f[0] == (if compressed then 1 else 0)
            && f[1] as int * 16777216 + f[2] as int * 65536 + f[3] as int * 256 + f[4] as int == |payload|
  {
    hide PutU32;
    var f := Frame(compressed, payload);
    BigEndian(|payload|);
    assert f[1..5] == PutU32(|payload|);
    assert forall i :: 0 <= i < 4 ==> f[i + 1] == f[1..5][i];
  }

  /** The payloads, framed one after the other. */
  function Wire(compressed: bool, payloads: seq<bytes>): (r: bytes)
    requires Fit(payloads)
  {
    if payloads == [] then []
    else Frame(compressed, payloads[0]) + Wire(compressed, payloads[1..])
  }

  /** The receiver reads message `m` from this payload. */
  predicate Reads<M(==)>(rx: Receiver<M>, compressed: bool, payload: bytes, m: M) {
    && |payload| <= U32_MAX
    && (compressed ==> rx.encoding.Some?)
    && DecodePayload(rx, if compressed then rx.encoding else None, payload) == Ok(m)
  }

  predicate AllRead<M(==)>(rx: Receiver<M>, compressed: bool, payloads: seq<bytes>, ms: seq<M>) {
    && |payloads| == |ms|
    && forall i :: 0 <= i < |ms| ==> Reads(rx, compressed, payloads[i], ms[i])
  }

  lemma NextFrameOfFrame<M>(rx: Receiver<M>, compressed: bool, payload: bytes, m: M, more: bytes)
    requires Reads(rx, compressed, payload, m)
    ensures NextFrame(rx, Frame(compressed, payload) + more) == Complete(m, PREFIX_LEN + |payload|)
  {
    hide DecodePayload, PutU32, GetU32;
    var s := Frame(compressed, payload) + more;
    var end := PREFIX_LEN + |payload|;
    assert s[1..PREFIX_LEN] == PutU32(|payload|);
    GetPutU32(|payload|);
    assert s[PREFIX_LEN..end] == payload;
  }

  /** A frame cut short is not a frame. */
  lemma NextFrameOfCut<M>(rx: Receiver<M>, compressed: bool, payload: bytes, m: M, k: nat)
    requires Reads(rx, compressed, payload, m) && k < PREFIX_LEN + |payload|
    ensures NextFrame(rx, Frame(compressed, payload)[..k]) == Incomplete
  {
    hide DecodePayload, PutU32, GetU32;
    var frame := Frame(compressed, payload);
    var cut := frame[..k];
    if k >= PREFIX_LEN {
      assert frame[1..PREFIX_LEN] == PutU32(|payload|);
      assert cut[1..PREFIX_LEN] == frame[1..PREFIX_LEN];
      GetPutU32(|payload|);
    }
  }

  /** Parsing a concatenation of frames gives back their messages, in order, and nothing else. */
  lemma {:induction false} ParseWire<M>(
    rx: Receiver<M>, compressed: bool, payloads: seq<bytes>, ms: seq<M>, more: bytes)
    requires AllRead(rx, compressed, payloads, ms)
    ensures Fit(payloads)
    ensures Parse(rx, Wire(compressed, payloads) + more)
         == Parsed(ms + Parse(rx, more).messages, Parse(rx, more).stop)
    decreases |ms|
  {
    hide NextFrame, Parse, Reads, Frame;
    AllReadFit(rx, compressed, payloads, ms);
    if ms == [] {
      assert Wire(compressed, payloads) + more == more;
      assert ms + Parse(rx, more).messages == Parse(rx, more).messages;
    } else {
      var rest := Wire(compressed, payloads[1..]);
      var head := Frame(compressed, payloads[0]);
      var s := Wire(compressed, payloads) + more;
      FrameLength(compressed, payloads[0]);
      assert s == head + (rest + more);
      NextFrameOfFrame(rx, compressed, payloads[0], ms[0], rest + more);
      assert s[|head|..] == rest + more;
      ParseStep(rx, s);
      ParseWire(rx, compressed, payloads[1..], ms[1..], more);
      assert ms == [ms[0]] + ms[1..];
      ConcatAssoc([ms[0]], ms[1..], Parse(rx, more).messages);
    }
  }

  lemma FrameLength(compressed: bool, payload: bytes)
    requires |payload| <= U32_MAX
    ensures |Frame(compressed, payload)| == PREFIX_LEN + |payload|
  {
  }

  lemma AllReadFit<M>(rx: Receiver<M>, compressed: bool, payloads: seq<bytes>, ms: seq<M>)
    requires AllRead(rx, compressed, payloads, ms)
    ensures Fit(payloads)
  {
    forall i | 0 <= i < |payloads|
      ensures |payloads[i]| <= U32_MAX
    {
      assert Reads(rx, compressed, payloads[i], ms[i]);
    }
  }

  /** Cutting a valid encoding at byte `k` inside frame `j`: exactly the first `j` messages are
      read, and what is left over is the part of frame `j` before the cut. */
  lemma ParseTruncated<M>(
    rx: Receiver<M>, compressed: bool, payloads: seq<bytes>, ms: seq<M>, j: nat, k: nat)
    requires AllRead(rx, compressed, payloads, ms) && Fit(payloads) && j < |ms|
    requires |Wire(compressed, payloads[..j])| <= k < |Wire(compressed, payloads[..j + 1])|
    ensures k < |Wire(compressed, payloads)|
    ensures var done := |Wire(compressed, payloads[..j])|;
            && k - done < PREFIX_LEN + |payloads[j]|
            && Parse(rx, Wire(compressed, payloads)[..k])
               == Parsed(ms[..j], Rest(Frame(compressed, payloads[j])[..k - done]))
  {
    hide NextFrame, DecodePayload, Frame, Reads;
    var before := Wire(compressed, payloads[..j]);
    var frame := Frame(compressed, payloads[j]);
    FrameLength(compressed, payloads[j]);
    WireSplit(compressed, payloads, j);
    WireSplit(compressed, payloads[..j + 1], j);
    assert payloads[..j + 1][..j] == payloads[..j] && payloads[..j + 1][j + 1..] == [];
    var cut := frame[..k - |before|];
    assert Wire(compressed, payloads)[..k] == before + cut;
    ParseWire(rx, compressed, payloads[..j], ms[..j], cut);
    NextFrameOfCut(rx, compressed, payloads[j], ms[j], k - |before|);
    assert ms[..j] + [] == ms[..j];
  }

  /** Every cut inside an encoding falls into exactly one of its frames. */
  lemma {:induction false} CutFrame(compressed: bool, payloads: seq<bytes>, k: nat) returns (j: nat)
    requires Fit(payloads) && k < |Wire(compressed, payloads)|
    ensures j < |payloads|
    ensures |Wire(compressed, payloads[..j])| <= k < |Wire(compressed, payloads[..j + 1])|
    decreases |payloads|
  {
    hide Frame;
    var head := Frame(compressed, payloads[0]);
    assert payloads[..0] == [] && payloads[..1][1..] == [];
    assert Wire(compressed, payloads[..1]) == head + Wire(compressed, payloads[..0]);
    if k < |head| {
      return 0;
    }
    j := CutFrame(compressed, payloads[1..], k - |head|);
    assert payloads[..j + 1][1..] == payloads[1..][..j];
    assert payloads[..j + 2][1..] == payloads[1..][..j + 1];
    j := j + 1;
  }

  lemma {:induction false} WireSplit(compressed: bool, payloads: seq<bytes>, j: nat)
    requires Fit(payloads) && j < |payloads|
    ensures Wire(compressed, payloads)
         == Wire(compressed, payloads[..j]) + Frame(compressed, payloads[j]) + Wire(compressed, payloads[j + 1..])
    decreases j
  {
    hide Frame;
    if j > 0 {
      WireSplit(compressed, payloads[1..], j - 1);
      assert payloads[1..][..j - 1] == payloads[..j][1..];
      assert payloads[1..][j..] == payloads[j + 1..];
    }
  }

  /** Every error of a frame is reported as Internal. */
  lemma ErrorsAreInternal(kind: Kind, e: FrameError)
    ensures ErrorStatus(kind, e).code == Internal && UnexpectedEof().code == Internal
    ensures ErrorStatus(kind, e).details == [] && ErrorStatus(kind, e).metadata == map[]
  {
  }
}
