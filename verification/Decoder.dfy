/** The receiving side: an incremental decoder over a body cut into arbitrary frames. */
module Decoder {
  import opened Bytes
  import opened HeaderMaps
  import opened Compression
  import opened Statuses
  import opened Framing
  import opened Bodies

  datatype State = Header | Payload(encoding: Option<Encoding>, len: nat) | Error

  /** Result of one poll. `Crashed` is the panic on undecodable status details. */
  datatype Polled<M> = Item(message: M) | Failed(status: Status) | Done | Crashed

  /** The last poll of a stream whose complete messages are all delivered: its result, the
      trailers kept, and whether the decoder is stopped for good. */
  datatype Ending<M> = Ending(result: Polled<M>, trailers: Option<Headers>, stopped: bool)

  function EndWith<M>(kind: Kind, kept: Option<Headers>, trailers: Option<Headers>): (e: Ending<M>)
    ensures !e.result.Item? && !e.stopped
  {
    match kind
    case Request => Ending(Done, kept, false)
    case Response(http, _) =>
      match Infer(trailers, http)
      case Fine => Ending(Done, trailers, false)
      case Silent => Ending(Done, kept, false)
      case Faulty(status) => Ending(Failed(status), kept, false)
      case Broken => Ending(Crashed, kept, false)
  }

  /** `leftover` is the unfinished frame in the buffer; it is only looked at when the body ends
      without trailers, and then a frame cut directly after its prefix goes unnoticed. */
  function Finish<M>(kind: Kind, kept: Option<Headers>, after: seq<BodyFrame>, leftover: bytes): (e: Ending<M>)
    requires after != [] ==> !after[0].DataFrame?
    ensures !e.result.Item?
  {
    if after == [] then
      if |leftover| == 0 || |leftover| == PREFIX_LEN then EndWith(kind, kept, None)
      else Ending(Failed(UnexpectedEof()), kept, false)
    else
      match after[0]
      case TrailersFrame(headers) => EndWith(kind, kept, Some(headers))
      case ErrorFrame(status) =>
        if kind == Request && status.code == Cancelled then Ending(Done, kept, false)
        else Ending(Failed(status), kept, true)
  }

  function Tail<T>(s: seq<T>): seq<T> {
    if s == [] then [] else s[1..]
  }

  /** The further poll of the body that `trailers` makes when none were stored. */
  function ExtraPoll<M>(rest: seq<BodyFrame>): Result<Option<Headers>, Polled<M>> {
    if rest == [] then Ok(None)
    else
      match rest[0]
      case TrailersFrame(headers) => Ok(Some(headers))
      case DataFrame(_) => Err(Failed(New(Internal, B("Unexpected data from stream."))))
      case ErrorFrame(status) => Err(Failed(status))
  }

  class RecvStream<M(!new)> {
    const rx: Receiver<M>
    const kind: Kind
    var body: seq<BodyFrame>
    var buf: bytes
    var state: State
    var trailers: Option<Headers>

    constructor (body: seq<BodyFrame>, kind: Kind, rx: Receiver<M>)
      ensures Valid() && !state.Error? && Pending() == [] && trailers == None
      ensures this.body == body && this.kind == kind && this.rx == rx
    {
      this.body, this.kind, this.rx := body, kind, rx;
      buf, state, trailers := [], Header, None;
    }

    /** A header once consumed is remembered in the state. */
    ghost predicate Valid()
      reads this
    {
      state.Payload? ==>
        state.len <= U32_MAX && (state.encoding.Some? ==> state.encoding == rx.encoding)
    }

    /** The bytes received and not yet delivered, the consumed header included. */
    ghost function Pending(): bytes
      reads this
      requires Valid()
    {
      match state
      case Payload(encoding, len) => Prefix(encoding.Some?, len) + buf
      case _ => buf
    }

    /** Everything the one-shot parser finds in what is pending and still to come. */
    ghost function Outlook(): Parsed<M>
      reads this
      requires Valid()
    {
      Parse(rx, Pending() + DataOf(body))
    }

    /** `decode_chunk`: takes the first frame out of the pending bytes if it is complete. */
    method DecodeChunk() returns (r: Result<Option<M>, Status>)
      requires Valid() && !state.Error?
      modifies this
      ensures body == old(body) && trailers == old(trailers)
      ensures NextFrame(rx, old(Pending())).Incomplete? ==>
                && r == Ok(None) && Valid() && !state.Error? && Pending() == old(Pending())
                && (buf == [] <==> |Pending()| == 0 || |Pending()| == PREFIX_LEN)
      ensures NextFrame(rx, old(Pending())).Malformed? ==>
                && r == Err(ErrorStatus(kind, NextFrame(rx, old(Pending())).error))
                && Valid() && !state.Error? && Pending() == AfterError(rx, old(Pending()))
      ensures NextFrame(rx, old(Pending())).Complete? ==>
                && r == Ok(Some(NextFrame(rx, old(Pending())).message)) && Valid() && state.Header?
                && Pending() == old(Pending())[NextFrame(rx, old(Pending())).size..]
    {
      hide DecodePayload, PutU32, GetU32, ErrorStatus;
      if state.Header? {
        if |buf| < PREFIX_LEN {
          return Ok(None);
        }
        var flag := buf[0];
        var encoding := FlagEncoding(rx, flag);
        if encoding.Err? {
          buf := buf[1..];
          return Err(ErrorStatus(kind, encoding.error));
        }
        var len := GetU32(buf[1..PREFIX_LEN]);
        PrefixOfHeader(rx, buf);
        buf := buf[PREFIX_LEN..];
        state := Payload(encoding.value, len);
        assert Pending() == old(Pending());
      }
      PendingHeader();
      var len := state.len;
      if |buf| < len {
        return Ok(None);
      }
      var data := buf[..len];
      assert Pending()[PREFIX_LEN..PREFIX_LEN + len] == data;
      assert Pending()[PREFIX_LEN + len..] == buf[len..];
      buf := buf[len..];
      var decoded := DecodePayload(rx, state.encoding, data);
      if decoded.Err? {
        return Err(ErrorStatus(kind, decoded.error));
      }
      state := Header;
      return Ok(Some(decoded.value));
    }

    lemma PendingHeader()
      requires Valid() && state.Payload?
      ensures |Pending()| == PREFIX_LEN + |buf|
      ensures FlagEncoding(rx, Pending()[0]) == Ok(state.encoding)
      ensures GetU32(Pending()[1..PREFIX_LEN]) == state.len
    {
      assert Pending()[1..PREFIX_LEN] == PutU32(state.len);
      GetPutU32(state.len);
    }

    /** `poll_next`. */
    method PollNext() returns (r: Polled<M>)
      requires Valid()
      modifies this
      // A stopped decoder stays silent.
      ensures old(state).Error? ==>
                r == Done && Valid() && body == old(body) && state == old(state) && trailers == old(trailers)
      // The next message of the one-shot parse is delivered, whatever the cuts.
      ensures !old(state).Error? && old(Outlook()).messages != [] ==>
                && r == Item(old(Outlook()).messages[0])
                && Valid() && !state.Error? && trailers == old(trailers)
                && Outlook() == Parsed(old(Outlook()).messages[1..], old(Outlook()).stop)
                && AfterData(body) == old(AfterData(body))
      // After the last message, its error is reported.
      ensures !old(state).Error? && old(Outlook()).messages == [] && old(Outlook()).stop.Bad? ==>
                && r == Failed(ErrorStatus(kind, old(Outlook()).stop.error))
                && Valid() && !state.Error? && trailers == old(trailers)
                && AfterData(body) == old(AfterData(body))
                && Pending() + DataOf(body) == AfterError(rx, old(Pending() + DataOf(body)))
      // Or, with only an unfinished frame left, the end of the body is handled.
      ensures !old(state).Error? && old(Outlook()).messages == [] && old(Outlook()).stop.Rest? ==>
                && var e := Finish<M>(kind, old(trailers), old(AfterData(body)), old(Outlook()).stop.bytes);
                && r == e.result && trailers == e.trailers && (state.Error? <==> e.stopped)
                && Valid() && body == Tail(old(AfterData(body)))
                && (!e.stopped ==> Pending() == old(Outlook()).stop.bytes)
    {
      hide NextFrame, Parse, AfterError, Prefix, EndWith, ErrorStatus, UnexpectedEof;
      if state.Error? {
        return Done;
      }
      ghost var all := Pending() + DataOf(body);
      ParseStep(rx, all);
      while true
        invariant Valid() && !state.Error? && trailers == old(trailers)
        invariant Pending() + DataOf(body) == all
        invariant AfterData(body) == old(AfterData(body))
        decreases |body|
      {
        ghost var pending := Pending();
        var chunk := DecodeChunk();
        if !NextFrame(rx, pending).Incomplete? {
          NextFrameStable(rx, pending, DataOf(body));
        }
        match chunk {
          case Err(status) =>
            AfterErrorStable(rx, pending, DataOf(body));
            return Failed(status);
          case Ok(Some(m)) =>
            assert all[NextFrame(rx, pending).size..] == Pending() + DataOf(body);
            return Item(m);
          case Ok(None) =>
        }
        if body != [] && body[0].DataFrame? {
          ConcatAssoc(Pending(), body[0].data, DataOf(body[1..]));
          Append(body[0].data);
          body := body[1..];
          continue;
        }
        assert Pending() == all;
        assert Outlook() == Parsed([], Rest(all));
        if body == [] {
          if buf != [] {
            return Failed(UnexpectedEof());
          }
          r := FinishWith(None);
          return;
        }
        var frame := body[0];
        body := body[1..];
        match frame {
          case TrailersFrame(headers) =>
            r := FinishWith(Some(headers));
            return;
          case ErrorFrame(status) =>
            if kind == Request && status.code == Cancelled {
              return Done;
            }
            state := Error;
            return Failed(status);
        }
      }
    }

    method Append(data: bytes)
      requires Valid() && !state.Error?
      modifies this`buf
      ensures Valid() && Pending() == old(Pending()) + data
    {
      buf := buf + data;
    }

    /** The part of `poll_next` after its loop. */
    method FinishWith(last: Option<Headers>) returns (r: Polled<M>)
      modifies this`trailers
      ensures r == EndWith<M>(kind, old(trailers), last).result
      ensures trailers == EndWith<M>(kind, old(trailers), last).trailers
    {
      match kind {
        case Request =>
          return Done;
        case Response(http, _) =>
          var inferred := InferStatus(last, http);
          match inferred {
            case Fine =>
              trailers := last;
              return Done;
            case Silent =>
              return Done;
            case Faulty(status) =>
              return Failed(status);
            case Broken =>
              return Crashed;
          }
      }
    }

    /** Polls until the stream gives no further message: exactly the messages of the one-shot parse
        are delivered, in order, and the last poll reports what stopped it. */
    method Drain() returns (messages: seq<M>, last: Polled<M>)
      requires Valid()
      modifies this
      ensures old(state).Error? ==>
                && messages == [] && last == Done && Valid() && state.Error?
                && body == old(body) && trailers == old(trailers)
      ensures !old(state).Error? ==> messages == old(Outlook()).messages
      ensures !old(state).Error? && old(Outlook()).stop.Bad? ==>
                last == Failed(ErrorStatus(kind, old(Outlook()).stop.error)) && Valid() && !state.Error?
      ensures !old(state).Error? && old(Outlook()).stop.Rest? ==>
                && var e := Finish<M>(kind, old(trailers), old(AfterData(body)), old(Outlook()).stop.bytes);
                && last == e.result && trailers == e.trailers && (state.Error? <==> e.stopped)
                && Valid() && body == Tail(old(AfterData(body)))
                && (!e.stopped ==> Pending() == old(Outlook()).stop.bytes)
    {
      hide Parse, Prefix, EndWith, Finish, ErrorStatus, DataOf, AfterData;
      messages := [];
      if state.Error? {
        last := PollNext();
        return;
      }
      while true
        invariant Valid() && !state.Error? && trailers == old(trailers)
        invariant messages + Outlook().messages == old(Outlook()).messages
        invariant Outlook().stop == old(Outlook()).stop
        invariant AfterData(body) == old(AfterData(body))
        decreases |Outlook().messages|
      {
        ghost var before := Outlook().messages;
        last := PollNext();
        if !last.Item? {
          return;
        }
        assert before == [before[0]] + before[1..];
        messages := messages + [last.message];
      }
    }

    /** `trailers`: hands out the stored trailers, reading the stream to its end if need be. */
    method TakeTrailers() returns (r: Result<Option<Headers>, Polled<M>>)
      requires Valid()
      modifies this
      ensures old(trailers).Some? ==> r == Ok(old(trailers)) && trailers == None
      ensures old(trailers).None? && old(state).Error? ==> r == ExtraPoll(old(body))
      ensures old(trailers).None? && !old(state).Error? && old(Outlook()).stop.Bad? ==>
                r == Err(Failed(ErrorStatus(kind, old(Outlook()).stop.error)))
      ensures old(trailers).None? && !old(state).Error? && old(Outlook()).stop.Rest? ==>
                var e := Finish<M>(kind, None, old(AfterData(body)), old(Outlook()).stop.bytes);
                && (!e.result.Done? ==> r == Err(e.result))
                && (e.result.Done? && e.trailers.Some? ==> r == Ok(e.trailers) && trailers == None)
                && (e.result.Done? && e.trailers.None? ==> r == ExtraPoll(Tail(old(AfterData(body)))))
    {
      hide EndWith, ErrorStatus, UnexpectedEof, Parse, DataOf;
      if trailers.Some? {
        r := Ok(trailers);
        trailers := None;
        return;
      }
      var messages, last := Drain();
      if !last.Done? {
        return Err(last);
      }
      if trailers.Some? {
        r := Ok(trailers);
        trailers := None;
        return;
      }
      if body == [] {
        return Ok(None);
      }
      var frame := body[0];
      body := body[1..];
      match frame
      case TrailersFrame(headers) => return Ok(Some(headers));
      case DataFrame(_) => return Err(Failed(New(Internal, B("Unexpected data from stream."))));
      case ErrorFrame(status) => return Err(Failed(status));
    }
  }

  lemma PrefixOfHeader<M>(rx: Receiver<M>, s: bytes)
    requires |s| >= PREFIX_LEN && FlagEncoding(rx, s[0]).Ok?
    ensures Prefix(FlagEncoding(rx, s[0]).value.Some?, GetU32(s[1..PREFIX_LEN])) + s[PREFIX_LEN..] == s
  {
    PutGetU32(s[1..PREFIX_LEN]);
  }

  /** Two receivers fed the same bytes in different cuts deliver the same messages and the same
      last result, valid input or not. */
  method CutsDoNotMatter<M(!new)>(rx: Receiver<M>, kind: Kind, a: seq<BodyFrame>, b: seq<BodyFrame>)
    returns (ma: seq<M>, la: Polled<M>, mb: seq<M>, lb: Polled<M>)
    requires SameData(a, b)
    ensures ma == mb && la == lb
  {
    hide Finish, ErrorStatus, Parse;
    var first := new RecvStream(a, kind, rx);
    var second := new RecvStream(b, kind, rx);
    assert first.Outlook() == second.Outlook();
    ma, la := first.Drain();
    mb, lb := second.Drain();
  }
}
