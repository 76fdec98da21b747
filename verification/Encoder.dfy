/** The sending side: a source of messages and errors becomes a stream of data frames. */
module Encoder {
  import opened Bytes
  import opened Compression
  import opened LinkedBuffers
  import opened Statuses
  import opened Framing

  datatype Sender<!M> = Sender(codec: Codec<M>, lib: Libraries, encoding: Option<Encoding>)

  /** One item of the byte stream: a data frame or an error. */
  datatype Output = Data(data: bytes) | Failure(status: Status)

  /** What is written after the prefix: the encoder's own pieces, or one compressed piece. */
  function Pieces<M>(tx: Sender<M>, m: M): Result<seq<Piece>, Status> {
    match tx.codec.encode(m)
    case Err(text) => Err(New(Internal, B("Error encoding: ") + text))
    case Ok(pieces) =>
      if tx.encoding.None? then Ok(pieces)
      else
        match Compress(tx.lib, tx.encoding.value, Content(pieces))
        case Err(text) => Err(New(Internal, B("Error compressing: ") + text))
        case Ok(data) => Ok([Write(data)])
  }

  /** The source asserts that a payload length fits 32 bits. */
  predicate Fits<M>(tx: Sender<M>, item: Result<M, Status>) {
    item.Ok? && Pieces(tx, item.value).Ok? ==> |Content(Pieces(tx, item.value).value)| <= U32_MAX
  }

  predicate AllFit<M>(tx: Sender<M>, source: seq<Result<M, Status>>) {
    forall i :: 0 <= i < |source| ==> Fits(tx, source[i])
  }

  function NonEmpty(nodes: seq<bytes>): (r: seq<bytes>)
    ensures forall i :: 0 <= i < |r| ==> r[i] != []
  {
    if nodes == [] then []
    else (if nodes[0] == [] then [] else [nodes[0]]) + NonEmpty(nodes[1..])
  }

  lemma {:induction false} NonEmptyFlatten(nodes: seq<bytes>)
    ensures Flatten(NonEmpty(nodes)) == Flatten(nodes)
  {
    if nodes != [] {
      NonEmptyFlatten(nodes[1..]);
      if nodes[0] != [] {
        assert NonEmpty(nodes)[1..] == NonEmpty(nodes[1..]);
      } else {
        assert NonEmpty(nodes) == NonEmpty(nodes[1..]);
      }
    }
  }

  /** The frames of one message. */
  function MessageFrames(compressed: bool, pieces: seq<Piece>): seq<bytes>
    requires |Content(pieces)| <= U32_MAX
  {
    NonEmpty(Nodes(pieces, Prefix(compressed, |Content(pieces)|)))
  }

  /** However zero-copy pieces split the payload, the frames of a message concatenate to its
      length-prefixed form, and the whole prefix travels in the first of them. */
  lemma MessageFramesCarryMessage(compressed: bool, pieces: seq<Piece>)
    requires |Content(pieces)| <= U32_MAX
    ensures Flatten(MessageFrames(compressed, pieces)) == Frame(compressed, Content(pieces))
    ensures |MessageFrames(compressed, pieces)| > 0
    ensures Prefix(compressed, |Content(pieces)|) <= MessageFrames(compressed, pieces)[0]
  {
    hide PutU32;
    var prefix := Prefix(compressed, |Content(pieces)|);
    NodesContent(pieces, prefix);
    NonEmptyFlatten(Nodes(pieces, prefix));
    NodesKeepPrefix(pieces, prefix, []);
    assert prefix + [] == prefix;
  }

  function AsData(frames: seq<bytes>): (r: seq<Output>)
    ensures |r| == |frames|
    ensures forall i :: 0 <= i < |r| ==> r[i] == Data(frames[i])
  {
    seq(|frames|, i requires 0 <= i < |frames| => Data(frames[i]))
  }

  /** What one item of the source contributes to the stream. */
  function ItemOutput<M>(tx: Sender<M>, item: Result<M, Status>): seq<Output>
    requires Fits(tx, item)
  {
    if item.Err? then [Failure(item.error)]
    else if Pieces(tx, item.value).Err? then [Failure(Pieces(tx, item.value).error)]
    else AsData(MessageFrames(tx.encoding.Some?, Pieces(tx, item.value).value))
  }

  /** An encoding error ends the stream; an error of the source does not. */
  predicate Ends<M>(tx: Sender<M>, item: Result<M, Status>) {
    item.Ok? && Pieces(tx, item.value).Err?
  }

  /** The stream produced from a source. */
  function Encoded<M>(tx: Sender<M>, source: seq<Result<M, Status>>): (r: seq<Output>)
    requires AllFit(tx, source)
    decreases |source|
  {
    if source == [] then []
    else
      ItemOutput(tx, source[0]) + if Ends(tx, source[0]) then [] else Encoded(tx, source[1..])
  }

  /** Writes the payload of a message behind whatever the buffer already holds. */
  method WritePayload<M>(tx: Sender<M>, m: M, buf: LinkedBytes) returns (r: Result<(), Status>)
    modifies buf
    ensures Pieces(tx, m).Err? ==> r == Err(Pieces(tx, m).error)
    ensures Pieces(tx, m).Ok? ==>
              && r == Ok(())
              && buf.AllNodes() == old(buf.list) + Nodes(Pieces(tx, m).value, old(buf.tail))
  {
    var encoded := tx.codec.encode(m);
    if encoded.Err? {
      return Err(New(Internal, B("Error encoding: ") + encoded.error));
    }
    if tx.encoding.None? {
      buf.WriteAll(encoded.value);
      return Ok(());
    }
    var plain := new LinkedBytes();
    plain.WriteAll(encoded.value);
    NodesContent(encoded.value, []);
    assert plain.AllNodes() == Nodes(encoded.value, []);
    assert [] + Content(encoded.value) == Content(encoded.value);
    var data := Compress(tx.lib, tx.encoding.value, Flatten(plain.AllNodes()));
    if data.Err? {
      return Err(New(Internal, B("Error compressing: ") + data.error));
    }
    buf.WriteAll([Write(data.value)]);
    return Ok(());
  }

  /** Reserves the prefix over uninitialised memory, writes the payload, then patches node 0. */
  method EncodeMessage<M>(tx: Sender<M>, m: M, garbage: bytes) returns (r: Result<seq<bytes>, Status>)
    requires Fits(tx, Ok(m)) && |garbage| == PREFIX_LEN
    ensures Pieces(tx, m).Err? ==> r == Err(Pieces(tx, m).error)
    ensures Pieces(tx, m).Ok? ==> r == Ok(MessageFrames(tx.encoding.Some?, Pieces(tx, m).value))
  {
    hide PutU32, Pieces;
    var buf := new LinkedBytes();
    buf.PutSlice(garbage);
    assert buf.tail == garbage;
    var written := WritePayload(tx, m, buf);
    if written.Err? {
      return Err(written.error);
    }
    ghost var pieces := Pieces(tx, m).value;
    assert buf.AllNodes() == Nodes(pieces, garbage);
    NodesContent(pieces, garbage);
    var len := buf.Len() - PREFIX_LEN;
    PatchedNodes(pieces, garbage, Prefix(tx.encoding.Some?, len));
    buf.PatchFront(Prefix(tx.encoding.Some?, len));
    var frames := FramesOf(buf.AllNodes());
    return Ok(frames);
  }

  /** Patching the front of node 0 has the effect of having reserved the right prefix. */
  lemma PatchedNodes(pieces: seq<Piece>, garbage: bytes, prefix: bytes)
    requires |garbage| == |prefix|
    ensures |prefix| <= |Nodes(pieces, garbage)[0]|
    ensures Nodes(pieces, garbage)[0 := prefix + Nodes(pieces, garbage)[0][|prefix|..]] == Nodes(pieces, prefix)
  {
    NodesKeepPrefix(pieces, garbage, []);
    NodesKeepPrefix(pieces, prefix, []);
    assert garbage + [] == garbage && prefix + [] == prefix;
  }

  lemma NonEmptyStep(nodes: seq<bytes>, i: nat)
    requires i < |nodes|
    ensures NonEmpty(nodes[i..]) ==
            if nodes[i] == [] then NonEmpty(nodes[i + 1..]) else [nodes[i]] + NonEmpty(nodes[i + 1..])
  {
    assert nodes[i..][1..] == nodes[i + 1..];
  }

  /** One frame for each node that is not empty. */
  method FramesOf(nodes: seq<bytes>) returns (frames: seq<bytes>)
    ensures frames == NonEmpty(nodes)
  {
    frames := [];
    for i := 0 to |nodes|
      invariant frames + NonEmpty(nodes[i..]) == NonEmpty(nodes)
    {
      ghost var rest := NonEmpty(nodes[i + 1..]);
      NonEmptyStep(nodes, i);
      if nodes[i] != [] {
        assert frames + ([nodes[i]] + rest) == (frames + [nodes[i]]) + rest;
        frames := frames + [nodes[i]];
      }
    }
    assert nodes[|nodes|..] == [];
  }

  /** `encode`: the whole stream. */
  method Encode<M>(tx: Sender<M>, source: seq<Result<M, Status>>, garbage: bytes) returns (r: seq<Output>)
    requires AllFit(tx, source) && |garbage| == PREFIX_LEN
    ensures r == Encoded(tx, source)
  {
    hide Pieces, MessageFrames, Encoded, AsData;
    r := [];
    EncodedEnd(tx, source);
    var i := 0;
    while i < |source|
      invariant 0 <= i <= |source|
      invariant r + Encoded(tx, source[i..]) == Encoded(tx, source)
    {
      EncodedStep(tx, source, i, r);
      match source[i] {
        case Err(status) =>
          r := r + [Failure(status)];
        case Ok(m) =>
          var frames := EncodeMessage(tx, m, garbage);
          if frames.Err? {
            r := r + [Failure(frames.error)];
            return;
          }
          r := r + AsData(frames.value);
      }
      i := i + 1;
    }
  }

  lemma EncodedEnd<M>(tx: Sender<M>, source: seq<Result<M, Status>>)
    requires AllFit(tx, source)
    ensures Encoded(tx, source[|source|..]) == [] && source[0..] == source
  {
  }

  lemma EncodedStep<M>(tx: Sender<M>, source: seq<Result<M, Status>>, i: nat, sofar: seq<Output>)
    requires AllFit(tx, source) && i < |source|
    ensures Fits(tx, source[i])
    ensures sofar + Encoded(tx, source[i..])
         == sofar + ItemOutput(tx, source[i])
            + if Ends(tx, source[i]) then [] else Encoded(tx, source[i + 1..])
  {
    hide ItemOutput, Ends;
    assert source[i..][1..] == source[i + 1..];
  }

  /** An error of the source is passed on and the stream goes on after it; an error in encoding or
      compressing a message is the last item. */
  lemma AfterFailures<M>(tx: Sender<M>, first: Result<M, Status>, rest: seq<Result<M, Status>>)
    requires AllFit(tx, [first] + rest)
    ensures AllFit(tx, rest)
    ensures first.Err? ==> Encoded(tx, [first] + rest) == [Failure(first.error)] + Encoded(tx, rest)
    ensures first.Ok? && Pieces(tx, first.value).Err? ==>
              Encoded(tx, [first] + rest) == [Failure(Pieces(tx, first.value).error)]
  {
    hide Pieces, Fits;
    var source := [first] + rest;
    assert source[1..] == rest;
    forall i | 0 <= i < |rest|
      ensures Fits(tx, rest[i])
    {
      assert Fits(tx, source[i + 1]);
    }
  }

  /** What a source amounts to for the receiver: the messages and payloads before the first
      failure, and that failure. */
  datatype Sendable<M> = Sendable(messages: seq<M>, payloads: seq<bytes>, failure: Option<Status>)

  function Summary<M>(tx: Sender<M>, source: seq<Result<M, Status>>): (r: Sendable<M>)
    ensures |r.messages| == |r.payloads|
    decreases |source|
  {
    if source == [] then Sendable([], [], None)
    else
      match source[0]
      case Err(status) => Sendable([], [], Some(status))
      case Ok(m) =>
        match Pieces(tx, m)
        case Err(status) => Sendable([], [], Some(status))
        case Ok(pieces) =>
          var rest := Summary(tx, source[1..]);
          Sendable([m] + rest.messages, [Content(pieces)] + rest.payloads, rest.failure)
  }

  /** Everything sent fits its length field, and a message is read back from its payload. */
  lemma {:induction false} SummaryReads<M(!new)>(tx: Sender<M>, rx: Receiver<M>, source: seq<Result<M, Status>>)
    requires AllFit(tx, source)
    ensures Fit(Summary(tx, source).payloads)
    ensures Matched(tx, rx) ==>
            AllRead(rx, tx.encoding.Some?, Summary(tx, source).payloads, Summary(tx, source).messages)
    decreases |source|
  {
    if source != [] && source[0].Ok? && Pieces(tx, source[0].value).Ok? {
      assert Fits(tx, source[0]);
      SummaryReads(tx, rx, source[1..]);
      if Matched(tx, rx) {
        MessageReads(tx, rx, source[0].value);
      }
    }
  }

  /** Sender and receiver agree: lawful libraries, the same codec, and either no compression or the
      same usable kind on both sides. */
  ghost predicate Matched<M(!new)>(tx: Sender<M>, rx: Receiver<M>) {
    && CodecLawful(rx.codec) && LibrariesLawful(rx.lib)
    && tx.codec == rx.codec && tx.lib == rx.lib
    && (tx.encoding.Some? ==>
          Usable(tx.encoding.value) && rx.encoding.Some? && SameKind(tx.encoding.value, rx.encoding.value))
  }

  lemma MessageReads<M(!new)>(tx: Sender<M>, rx: Receiver<M>, m: M)
    requires Matched(tx, rx) && Fits(tx, Ok(m)) && Pieces(tx, m).Ok?
    ensures Reads(rx, tx.encoding.Some?, Content(Pieces(tx, m).value), m)
  {
    var plain := Content(tx.codec.encode(m).value);
    if tx.encoding.Some? {
      DecompressCompress(tx.lib, tx.encoding.value, rx.encoding.value, plain);
      var data := Compress(tx.lib, tx.encoding.value, plain).value;
      assert Content([Write(data)]) == data + Content([]) == data;
    }
  }

  /** An encoding that is not usable writes the same empty payload for every message, so no
      receiver can tell two messages apart: compression loses nothing exactly when it is usable. */
  lemma LosslessExactlyWhenUsable<M(!new)>(tx: Sender<M>, rx: Receiver<M>, m1: M, m2: M)
    requires CodecLawful(rx.codec) && LibrariesLawful(rx.lib) && tx.codec == rx.codec && tx.lib == rx.lib
    requires tx.encoding.Some? && rx.encoding.Some? && SameKind(tx.encoding.value, rx.encoding.value)
    requires m1 != m2 && Fits(tx, Ok(m1)) && Fits(tx, Ok(m2))
    requires Pieces(tx, m1).Ok? && Pieces(tx, m2).Ok?
    ensures Usable(tx.encoding.value) <==>
            && Reads(rx, true, Content(Pieces(tx, m1).value), m1)
            && Reads(rx, true, Content(Pieces(tx, m2).value), m2)
  {
    if Usable(tx.encoding.value) {
      MessageReads(tx, rx, m1);
      MessageReads(tx, rx, m2);
    } else {
      assert Pieces(tx, m1) == Pieces(tx, m2);
    }
  }
}
