/** From a source of messages, through the encoder, the server body and a transport that re-cuts
    the data, to the client's decoder. */
module Pipeline {
  import opened Bytes
  import opened HeaderMaps
  import opened Statuses
  import opened Framing
  import opened Encoder
  import opened Bodies
  import opened Decoder
  import Decimal
  import Percent
  import Utf8

  /** The status a source ends with. */
  function FinalStatus<M>(s: Sendable<M>): Status {
    if s.failure.Some? then s.failure.value else OK_STATUS
  }

  /** A body built over `encode` carries exactly the frames of the messages before the first
      failure, followed by the trailers of the final status. */
  lemma {:induction false} BodyCarriesSource<M>(tx: Sender<M>, source: seq<Result<M, Status>>)
    requires AllFit(tx, source)
    ensures Fit(Summary(tx, source).payloads)
    ensures DataOf(Frames(Encoded(tx, source))) == Wire(tx.encoding.Some?, Summary(tx, source).payloads)
    ensures AfterData(Frames(Encoded(tx, source)))
         == [TrailersFrame(Written(map[], FinalStatus(Summary(tx, source))))]
    decreases |source|
  {
    hide Pieces, MessageFrames, Written, Frame;
    if source != [] {
      assert Fits(tx, source[0]);
      if source[0].Ok? && Pieces(tx, source[0].value).Ok? {
        var pieces := Pieces(tx, source[0].value).value;
        var chunks := MessageFrames(tx.encoding.Some?, pieces);
        MessageFramesCarryMessage(tx.encoding.Some?, pieces);
        FramesOfData(chunks, Encoded(tx, source[1..]));
        BodyCarriesSource(tx, source[1..]);
        var s := Summary(tx, source);
        assert s.payloads[1..] == Summary(tx, source[1..]).payloads;
      }
    }
  }

  /** Any re-cutting of what was sent parses to exactly the messages sent, with nothing left over. */
  lemma FramingRoundTrip<M(!new)>(tx: Sender<M>, rx: Receiver<M>, source: seq<Result<M, Status>>, received: seq<BodyFrame>)
    requires AllFit(tx, source) && Matched(tx, rx)
    requires SameData(received, Frames(Encoded(tx, source)))
    ensures Parse(rx, DataOf(received)) == Parsed(Summary(tx, source).messages, Rest([]))
  {
    hide Matched, Written, Pieces, Parse, Reads, Frames, Encoded;
    var s := Summary(tx, source);
    NothingLeft(rx);
    BodyCarriesSource(tx, source);
    SummaryReads(tx, rx, source);
    ParseWire(rx, tx.encoding.Some?, s.payloads, s.messages, []);
    assert DataOf(received) + [] == DataOf(received);
    assert s.messages + [] == s.messages;
  }

  /** What a client learns of a status that arrives in the trailers. */
  function Report<M>(s: Status): Polled<M> {
    match Read(Written(map[], s))
    case Found(r) => if r.code == CodeOk then Done else Failed(r)
    case Panicked => Crashed
    case Absent => Done
  }

  /** A failure is reported as it was raised exactly when it has a failure code and its status
      survives the trailers. */
  lemma ReportIsFaithful<M>(s: Status)
    requires HeadersWellFormed(s.metadata) && Utf8.Valid(s.message)
    ensures Report<M>(s) == Failed(s.(metadata := Kept(s.metadata)))
       <==> s.code != CodeOk && Percent.NoEscape(s.message) && DetailsRead(s) == Some(s.details)
  {
    hide Read, Written, Percent.NoEscape, DetailsRead;
    StatusRoundTrip(s);
    WrittenIsNeverAbsent(s);
  }

  /** A failure ends a response as a success exactly when its code is Ok, its details can be read
      and its message decodes to valid text; it makes the client panic exactly when its details
      cannot be read. */
  lemma ReportIsQuiet<M>(s: Status)
    requires HeadersWellFormed(s.metadata) && Utf8.Valid(s.message)
    ensures Report<M>(s) == Done
       <==> s.code == CodeOk && DetailsRead(s).Some? && Utf8.Valid(Percent.Decode(s.message))
    ensures Report<M>(s) == Crashed <==> DetailsRead(s).None?
  {
    hide Read, Written, DetailsRead, ReadMessage, Utf8.Valid;
    ReadWritten(s);
    if s.message == [] {
      EmptyMessageRead(s.code);
      EmptyIsText();
    } else {
      MessageRead(s);
      CodeKeptOrUnknown(s.code, Some(Percent.Encode(s.message)));
    }
  }

  lemma CodeKeptOrUnknown(code: Code, message: Option<bytes>)
    ensures ReadMessage(code, message).0 == code || ReadMessage(code, message).0 == Unknown
  {
  }

  lemma EmptyIsText()
    ensures Utf8.Valid(Percent.Decode([]))
  {
  }

  lemma OkIsQuiet()
    ensures Read(Written(map[], OK_STATUS)) == Found(OK_STATUS)
  {
    StatusRoundTrip(OK_STATUS);
    assert Kept(map[]) == map[];
  }

  /** Runs the sending side and collects the frames of the body. */
  method Send<M>(tx: Sender<M>, source: seq<Result<M, Status>>, garbage: bytes) returns (frames: seq<BodyFrame>)
    requires AllFit(tx, source) && |garbage| == PREFIX_LEN
    ensures frames == Frames(Encoded(tx, source))
  {
    hide Encoded, Frames;
    var stream := Encode(tx, source, garbage);
    var body := new Body(stream);
    frames := [];
    while !body.isEndStream
      invariant frames + body.Remaining() == Frames(stream)
      invariant body.isEndStream <==> body.Remaining() == []
      decreases |body.Remaining()|
    {
      ghost var rest := body.Remaining();
      var frame := body.PollFrame();
      assert rest == [rest[0]] + rest[1..];
      frames := frames + [frame.value];
    }
  }

  /** End to end: whatever the source, wherever the transport cuts the data and whatever the HTTP
      status, the client receives exactly the messages before the first failure, in order; then what
      its final status reports, with the trailers kept exactly if that is nothing; and unless the
      client panicked on it, every later poll is silent exactly if the HTTP status is 200. */
  method EndToEnd<M(!new)>(tx: Sender<M>, rx: Receiver<M>, source: seq<Result<M, Status>>,
                           received: seq<BodyFrame>, http: nat, shown: bytes, polls: nat)
    returns (messages: seq<M>, last: Polled<M>, kept: Option<Headers>, later: seq<Polled<M>>)
    requires AllFit(tx, source) && Matched(tx, rx)
    requires SameData(received, Frames(Encoded(tx, source)))
    ensures messages == Summary(tx, source).messages
    ensures Summary(tx, source).failure.None? ==> last == Done
    ensures Summary(tx, source).failure.Some? ==> last == Report(Summary(tx, source).failure.value)
    ensures kept == if last == Done then Some(Written(map[], FinalStatus(Summary(tx, source)))) else None
    ensures |later| == if last == Crashed then 0 else polls
    ensures forall i :: 0 <= i < |later| ==> if http == 200 then later[i] == Done else later[i].Failed?
  {
    hide Written, Read, Matched, Parse, Encoded, Frames, Summary, DataOf, AfterData;
    ghost var status := FinalStatus(Summary(tx, source));
    FramingRoundTrip(tx, rx, source, received);
    BodyCarriesSource(tx, source);
    OkIsQuiet();
    WrittenIsNeverAbsent(status);
    var stream := new RecvStream(received, Response(http, shown), rx);
    assert stream.Pending() + DataOf(stream.body) == DataOf(received);
    messages, last := stream.Drain();
    kept := stream.trailers;
    later := [];
    NothingLeft(rx);
    if last.Crashed? {
      return;
    }
    while |later| < polls
      invariant |later| <= polls
      invariant forall i :: 0 <= i < |later| ==> if http == 200 then later[i] == Done else later[i].Failed?
      invariant stream.Valid() && !stream.state.Error? && stream.body == [] && stream.Pending() == []
    {
      var next := stream.PollNext();
      later := later + [next];
    }
  }

  lemma NothingLeft<M>(rx: Receiver<M>)
    ensures DataOf([]) == [] && AfterData([]) == [] && Parse(rx, []) == Parsed([], Rest([]))
    ensures [] + DataOf([]) == []
  {
  }

  lemma WrittenIsNeverAbsent(s: Status)
    ensures Read(Written(map[], s)) != Absent
  {
  }

  /** A response that ends after complete messages without any status in its trailers ends quietly
      exactly if its HTTP status is 200, and otherwise with the code its HTTP status stands for. */
  method ReceiveWithoutStatus<M(!new)>(rx: Receiver<M>, http: nat, shown: bytes, received: seq<BodyFrame>)
    returns (messages: seq<M>, last: Polled<M>)
    requires Parse(rx, DataOf(received)).stop == Rest([])
    requires AfterData(received) == []
          || (AfterData(received)[0].TrailersFrame? && "grpc-status" !in AfterData(received)[0].headers)
    ensures messages == Parse(rx, DataOf(received)).messages
    ensures last == Done <==> http == 200
    ensures http != 200 ==>
              && last.Failed?
              && last.status.code
                 == (if http == 400 then Internal
                     else if http == 401 then Unauthenticated
                     else if http == 403 then PermissionDenied
                     else if http == 404 then Unimplemented
                     else if http == 429 || http == 502 || http == 503 || http == 504 then Unavailable
                     else Unknown)
              && last.status.message
                 == B("grpc-status header missing, mapped from HTTP status code ") + Decimal.Digits(http)
  {
    hide Parse, DataOf, AfterData, Read;
    var stream := new RecvStream(received, Response(http, shown), rx);
    assert stream.Pending() + DataOf(stream.body) == DataOf(received);
    if AfterData(received) != [] {
      NoCodeIsAbsent(AfterData(received)[0].headers);
    }
    messages, last := stream.Drain();
  }

  lemma NoCodeIsAbsent(h: Headers)
    requires "grpc-status" !in h
    ensures Read(h) == Absent
  {
  }

  /** A transport error after complete or incomplete messages is reported as it is, except that a
      cancelled request ends quietly; after it the decoder stays silent. */
  method ReceiveBroken<M(!new)>(rx: Receiver<M>, kind: Kind, received: seq<BodyFrame>)
    returns (messages: seq<M>, last: Polled<M>, later: Polled<M>)
    requires Parse(rx, DataOf(received)).stop.Rest?
    requires AfterData(received) != [] && AfterData(received)[0].ErrorFrame?
    ensures messages == Parse(rx, DataOf(received)).messages
    ensures var status := AfterData(received)[0].status;
            && (last == Done <==> kind == Request && status.code == Cancelled)
            && (last != Done ==> last == Failed(status) && later == Done)
  {
    hide Parse, DataOf, AfterData;
    var stream := new RecvStream(received, kind, rx);
    assert stream.Pending() + DataOf(stream.body) == DataOf(received);
    messages, last := stream.Drain();
    later := stream.PollNext();
  }

  /** A request that ends after complete messages ends quietly, whatever its trailers say. */
  method ReceiveRequest<M(!new)>(rx: Receiver<M>, received: seq<BodyFrame>) returns (messages: seq<M>, last: Polled<M>)
    requires Parse(rx, DataOf(received)).stop == Rest([])
    requires AfterData(received) != [] ==> AfterData(received)[0].TrailersFrame?
    ensures messages == Parse(rx, DataOf(received)).messages && last == Done
  {
    hide Parse, DataOf, AfterData;
    var stream := new RecvStream(received, Request, rx);
    assert stream.Pending() + DataOf(stream.body) == DataOf(received);
    messages, last := stream.Drain();
  }

  /** Receiving a strict prefix of a valid encoding: exactly the messages complete before the cut
      are delivered. Without trailers the truncation is reported exactly when the cut falls neither
      on a message boundary nor directly after a prefix; otherwise, and whenever trailers follow,
      the stream ends as if it had been complete. */
  method ReceiveTruncated<M(!new)>(rx: Receiver<M>, kind: Kind, compressed: bool, payloads: seq<bytes>, ms: seq<M>,
                                   k: nat, received: seq<BodyFrame>)
    returns (messages: seq<M>, last: Polled<M>, ghost j: nat)
    requires AllRead(rx, compressed, payloads, ms) && Fit(payloads) && k < |Wire(compressed, payloads)|
    requires DataOf(received) == Wire(compressed, payloads)[..k]
    ensures j < |ms| && |Wire(compressed, payloads[..j])| <= k < |Wire(compressed, payloads[..j + 1])|
    ensures messages == ms[..j]
    ensures AfterData(received) == [] ==>
              var done := |Wire(compressed, payloads[..j])|;
              && (last == Failed(UnexpectedEof()) <==> k != done && k != done + PREFIX_LEN)
              && (last != Failed(UnexpectedEof()) ==> last == EndWith<M>(kind, None, None).result)
    ensures AfterData(received) != [] && AfterData(received)[0].TrailersFrame? ==>
              last == EndWith<M>(kind, None, Some(AfterData(received)[0].headers)).result
  {
    hide Reads, Parse, Wire, Frame, UnexpectedEof, EndWith, DataOf, AfterData;
    j := CutFrame(compressed, payloads, k);
    ParseTruncated(rx, compressed, payloads, ms, j, k);
    FrameLength(compressed, payloads[j]);
    CutNoticed<M>(kind, Frame(compressed, payloads[j])[..k - |Wire(compressed, payloads[..j])|]);
    var stream := new RecvStream(received, kind, rx);
    assert stream.Pending() + DataOf(stream.body) == DataOf(received);
    messages, last := stream.Drain();
  }

  /** Without trailers, a leftover is noticed unless it is just a prefix. */
  lemma CutNoticed<M>(kind: Kind, leftover: bytes)
    ensures Finish<M>(kind, None, [], leftover).result == Failed(UnexpectedEof())
       <==> |leftover| != 0 && |leftover| != PREFIX_LEN
  {
    hide MissingStatus, UnexpectedEof;
    if kind.Response? {
      MissingStatusIsNotEof(kind.http);
    }
  }

  lemma MissingStatusIsNotEof(http: nat)
    ensures MissingStatus(http) != UnexpectedEof()
  {
    var text := "grpc-status header missing, mapped from HTTP status code ";
    assert |text| > 40;
    assert |MissingStatus(http).message| > 40;
    assert |UnexpectedEof().message| < 40;
  }
}
