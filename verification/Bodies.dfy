/** The server body: data frames, then exactly one trailers frame, then nothing. */
module Bodies {
  import opened Bytes
  import opened HeaderMaps
  import opened Statuses
  import opened Encoder

  /** A frame of an HTTP body, or a transport error. */
  datatype BodyFrame = DataFrame(data: bytes) | TrailersFrame(headers: Headers) | ErrorFrame(status: Status)

  const OK_STATUS: Status := New(CodeOk, [])

  /** The frames a body yields for a stream: the stream is cut at its first error, whose status
      becomes the trailers. */
  function Frames(stream: seq<Output>): (r: seq<BodyFrame>)
    ensures |r| > 0
  {
    if stream == [] then [TrailersFrame(Written(map[], OK_STATUS))]
    else
      match stream[0]
      case Data(data) => [DataFrame(data)] + Frames(stream[1..])
      case Failure(status) => [TrailersFrame(Written(map[], status))]
  }

  class Body {
    var stream: seq<Output>
    var isEndStream: bool

    constructor (stream: seq<Output>)
      ensures Remaining() == Frames(stream) && !isEndStream
    {
      this.stream := stream;
      isEndStream := false;
    }

    /** The frames still to come. */
    ghost function Remaining(): seq<BodyFrame>
      reads this
    {
      if isEndStream then [] else Frames(stream)
    }

    method PollFrame() returns (r: Option<BodyFrame>)
      modifies this
      ensures old(Remaining()) == [] ==> r == None && Remaining() == []
      ensures old(Remaining()) != [] ==> r == Some(old(Remaining())[0]) && Remaining() == old(Remaining())[1..]
      ensures isEndStream <==> Remaining() == []
    {
      if isEndStream {
        return None;
      }
      if stream == [] {
        isEndStream := true;
        var h := ToHeaderMap(OK_STATUS);
        return Some(match h case Ok(headers) => TrailersFrame(headers) case Err(e) => ErrorFrame(e));
      }
      var item := stream[0];
      stream := stream[1..];
      match item {
        case Data(data) =>
          return Some(DataFrame(data));
        case Failure(status) =>
          isEndStream := true;
          var h := ToHeaderMap(status);
          return Some(match h case Ok(headers) => TrailersFrame(headers) case Err(e) => ErrorFrame(e));
      }
    }
  }

  /** A body always yields data frames, one trailers frame, and nothing after it. */
  lemma {:induction false} FramesShape(stream: seq<Output>)
    ensures Frames(stream)[|Frames(stream)| - 1].TrailersFrame?
    ensures forall i :: 0 <= i < |Frames(stream)| - 1 ==> Frames(stream)[i].DataFrame?
  {
    if stream != [] && stream[0].Data? {
      FramesShape(stream[1..]);
      var rest := Frames(stream[1..]);
      assert Frames(stream) == [DataFrame(stream[0].data)] + rest;
    }
  }

  // ---- what a receiver sees ------------------------------------------------------------------

  /** The data before the first frame that is not data. */
  function DataOf(frames: seq<BodyFrame>): (r: bytes) {
    if frames == [] || !frames[0].DataFrame? then [] else frames[0].data + DataOf(frames[1..])
  }

  /** The frames from the first one that is not data. */
  function AfterData(frames: seq<BodyFrame>): (r: seq<BodyFrame>)
    ensures r != [] ==> !r[0].DataFrame?
    ensures |r| <= |frames|
  {
    if frames == [] || !frames[0].DataFrame? then frames else AfterData(frames[1..])
  }

  /** Two frame sequences that differ only in where the data is cut. */
  predicate SameData(a: seq<BodyFrame>, b: seq<BodyFrame>) {
    DataOf(a) == DataOf(b) && AfterData(a) == AfterData(b)
  }

  lemma {:induction false} FramesOfData(chunks: seq<bytes>, rest: seq<Output>)
    ensures DataOf(Frames(AsData(chunks) + rest)) == Flatten(chunks) + DataOf(Frames(rest))
    ensures AfterData(Frames(AsData(chunks) + rest)) == AfterData(Frames(rest))
    decreases |chunks|
  {
    if chunks == [] {
      assert AsData(chunks) + rest == rest;
    } else {
      var s := AsData(chunks) + rest;
      assert s[0] == Data(chunks[0]);
      assert s[1..] == AsData(chunks[1..]) + rest;
      var tail := Frames(s[1..]);
      assert Frames(s)[1..] == tail;
      FramesOfData(chunks[1..], rest);
    }
  }
}
