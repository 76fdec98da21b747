/** gRPC status and its passage through response trailers. */
module Statuses {
  import opened Bytes
  import opened HeaderMaps
  import Base64
  import Decimal
  import Percent
  import Utf8

  datatype Code =
    | CodeOk | Cancelled | Unknown | InvalidArgument | DeadlineExceeded | NotFound | AlreadyExists
    | PermissionDenied | ResourceExhausted | FailedPrecondition | Aborted | OutOfRange
    | Unimplemented | Internal | Unavailable | DataLoss | Unauthenticated

  /** The message is the UTF-8 text of a Rust `String`. */
  datatype Status = Status(code: Code, message: bytes, details: bytes, metadata: Headers)

  const CODE_HEADER := "grpc-status"
  const MESSAGE_HEADER := "grpc-message"
  const DETAILS_HEADER := "grpc-status-details-bin"

  function New(code: Code, message: bytes): Status {
    Status(code, message, [], map[])
  }

  function CodeText(c: Code): bytes {
    match c
    case CodeOk => [48]
    case Cancelled => [49]
    case Unknown => [50]
    case InvalidArgument => [51]
    case DeadlineExceeded => [52]
    case NotFound => [53]
    case AlreadyExists => [54]
    case PermissionDenied => [55]
    case ResourceExhausted => [56]
    case FailedPrecondition => [57]
    case Aborted => [49, 48]
    case OutOfRange => [49, 49]
    case Unimplemented => [49, 50]
    case Internal => [49, 51]
    case Unavailable => [49, 52]
    case DataLoss => [49, 53]
    case Unauthenticated => [49, 54]
  }

  /** `Code::from_bytes`: anything that is not a known code reads as `Unknown`. */
  function CodeFromText(b: bytes): Code {
    if |b| == 1 then
      match b[0]
      case 48 => CodeOk
      case 49 => Cancelled
      case 50 => Unknown
      case 51 => InvalidArgument
      case 52 => DeadlineExceeded
      case 53 => NotFound
      case 54 => AlreadyExists
      case 55 => PermissionDenied
      case 56 => ResourceExhausted
      case 57 => FailedPrecondition
      case _ => Unknown
    else if |b| == 2 && b[0] == 49 then
      match b[1]
      case 48 => Aborted
      case 49 => OutOfRange
      case 50 => Unimplemented
      case 51 => Internal
      case 52 => Unavailable
      case 53 => DataLoss
      case 54 => Unauthenticated
      case _ => Unknown
    else Unknown
  }

  lemma CodeRoundTrip(c: Code)
    ensures CodeFromText(CodeText(c)) == c
  {
  }

  /** The codes as the gRPC protocol numbers them; every other text reads as Unknown. */
  lemma CodeNumbers(c: Code, text: bytes)
    ensures CodeText(c) == Decimal.Digits(
              match c
              case CodeOk => 0
              case Cancelled => 1
              case Unknown => 2
              case InvalidArgument => 3
              case DeadlineExceeded => 4
              case NotFound => 5
              case AlreadyExists => 6
              case PermissionDenied => 7
              case ResourceExhausted => 8
              case FailedPrecondition => 9
              case Aborted => 10
              case OutOfRange => 11
              case Unimplemented => 12
              case Internal => 13
              case Unavailable => 14
              case DataLoss => 15
              case Unauthenticated => 16)
    ensures CodeFromText(text) != Unknown ==> text == CodeText(CodeFromText(text))
  {
    TwoDigits();
  }

  lemma TwoDigits()
    ensures forall n {:trigger Decimal.Digits(n)} :: 10 <= n < 20 ==> Decimal.Digits(n) == [49, 48 + (n - 10)]
  {
    forall n | 10 <= n < 20
      ensures Decimal.Digits(n) == [49, 48 + (n - 10)]
    {
      assert Decimal.Digits(1) == [49];
    }
  }

  // ---- writing -------------------------------------------------------------------------------

  /** The header map after a status has been added to `base`. */
  function Written(base: Headers, s: Status): Headers {
    var h1 := (base + Sanitized(s.metadata))[CODE_HEADER := [CodeText(s.code)]];
    var h2 := if s.message == [] then h1 else h1[MESSAGE_HEADER := [Percent.Encode(s.message)]];
    if s.details == [] then h2 else h2[DETAILS_HEADER := [Base64.Encode(s.details)]]
  }

  function InvalidHeaderValue(): Status {
    New(Internal, B("Couldn't serialize non-text grpc status header"))
  }

  /** `Status::add_header`. The two error returns are written as in the source and are proved to be
      unreachable: writing a status never fails. */
  method AddHeader(s: Status, h: HeaderMap) returns (r: Result<(), Status>)
    modifies h
    ensures r == Ok(())
    ensures h.entries == Written(old(h.entries), s)
  {
    var clone := new HeaderMap(s.metadata);
    clone.Sanitize();
    h.Extend(clone.entries);
    h.Insert(CODE_HEADER, CodeText(s.code));
    if s.message != [] {
      var text := Percent.Encode(s.message);
      Percent.EncodeHeaderSafe(s.message);
      if !Percent.HeaderSafe(text) {
        return Err(InvalidHeaderValue());
      }
      h.Insert(MESSAGE_HEADER, text);
    }
    if s.details != [] {
      var text := Base64.Encode(s.details);
      Base64.EncodeIsSymbols(s.details);
      if !Percent.HeaderSafe(text) {
        return Err(InvalidHeaderValue());
      }
      h.Insert(DETAILS_HEADER, text);
    }
    return Ok(());
  }

  /** `Status::to_header_map`. */
  method ToHeaderMap(s: Status) returns (r: Result<Headers, Status>)
    ensures r == Ok(Written(map[], s))
  {
    var h := new HeaderMap(map[]);
    var added := AddHeader(s, h);
    match added
    case Ok(_) => return Ok(h.entries);
    case Err(e) => return Err(e);
  }

  // ---- reading -------------------------------------------------------------------------------

  /** Outcome of reading a status; `Panicked` is the `expect` on malformed base64 details. */
  datatype Reading = Absent | Found(status: Status) | Panicked

  const UTF8_ERROR_PREFIX := "Error deserializing status message header: "

  /** Display text of the `Utf8Error` for an ill-formed text. */
  function Utf8ErrorText(s: bytes): bytes
    requires !Utf8.Valid(s)
  {
    var n := Utf8.ValidUpTo(s);
    UpToIsInside(s);
    var rest := s[n..];
    match Utf8.ErrorLength(rest)
    case Some(k) =>
      B("invalid utf-8 sequence of ") + Decimal.Digits(k) + B(" bytes from index ") + Decimal.Digits(n)
    case None => B("incomplete utf-8 byte sequence from index ") + Decimal.Digits(n)
  }

  lemma UpToIsInside(s: bytes)
    requires !Utf8.Valid(s)
    ensures Utf8.ValidUpTo(s) < |s|
  {
  }

  /** Code and message as read from their two headers. */
  function ReadMessage(code: Code, message: Option<bytes>): (Code, bytes) {
    if message.None? then (code, [])
    else
      var text := Percent.Decode(message.value);
      if Utf8.Valid(text) then (code, text)
      else (Unknown, B(UTF8_ERROR_PREFIX) + Utf8ErrorText(text))
  }

  /** `Status::from_header_map`, as a function of the map. */
  function Read(h: Headers): Reading {
    if First(h, CODE_HEADER).None? then Absent
    else
      var (code, message) :=
        ReadMessage(CodeFromText(First(h, CODE_HEADER).value), First(h, MESSAGE_HEADER));
      var details :=
        if First(h, DETAILS_HEADER).None? then Some([]) else Base64.Decode(First(h, DETAILS_HEADER).value);
      if details.None? then Panicked
      else Found(Status(code, message, details.value, h - {CODE_HEADER, MESSAGE_HEADER, DETAILS_HEADER}))
  }

  /** `Status::from_header_map`. */
  method FromHeaderMap(h: HeaderMap) returns (r: Reading)
    ensures r == Read(h.entries)
  {
    var code := First(h.entries, CODE_HEADER);
    if code.None? {
      return Absent;
    }
    var details: bytes := [];
    var encoded := First(h.entries, DETAILS_HEADER);
    if encoded.Some? {
      var decoded := Base64.Decode(encoded.value);
      if decoded.None? {
        return Panicked;
      }
      details := decoded.value;
    }
    var others := new HeaderMap(h.entries);
    others.Remove(CODE_HEADER);
    others.Remove(MESSAGE_HEADER);
    others.Remove(DETAILS_HEADER);
    var (c, m) := ReadMessage(CodeFromText(code.value), First(h.entries, MESSAGE_HEADER));
    assert others.entries == h.entries - {CODE_HEADER, MESSAGE_HEADER, DETAILS_HEADER};
    return Found(Status(c, m, details, others.entries));
  }

  // ---- round trip ----------------------------------------------------------------------------

  predicate HeadersWellFormed(h: Headers) {
    forall name :: name in h ==> h[name] != []
  }

  /** Details come back unless there are none and the metadata supplies its own details header. */
  function DetailsRead(s: Status): Option<bytes> {
    if s.details != [] then Some(s.details)
    else if First(s.metadata, DETAILS_HEADER).None? then Some([])
    else Base64.Decode(First(s.metadata, DETAILS_HEADER).value)
  }

  /** Metadata as the receiver sees it. */
  function Kept(m: Headers): Headers {
    Sanitized(m) - {DETAILS_HEADER}
  }

  lemma NoPercentIn(s: string)
    requires '%' !in s
    ensures Percent.PERCENT !in B(s)
  {
    forall i | 0 <= i < |s|
      ensures B(s)[i] != Percent.PERCENT
    {
      assert s[i] != '%' by { assert s[i] in s; }
    }
  }

  lemma DigitsHaveNoPercent(n: nat)
    ensures Percent.PERCENT !in Decimal.Digits(n)
  {
    assert forall b :: b in Decimal.Digits(n) ==> Decimal.IsDigit(b);
  }

  lemma PrefixHasNoPercent()
    ensures Percent.PERCENT !in B(UTF8_ERROR_PREFIX)
  {
    NoPercentIn(UTF8_ERROR_PREFIX);
  }

  lemma InvalidTextHasNoPercent()
    ensures Percent.PERCENT !in B("invalid utf-8 sequence of ")
    ensures Percent.PERCENT !in B(" bytes from index ")
  {
    NoPercentIn("invalid utf-8 sequence of ");
    NoPercentIn(" bytes from index ");
  }

  lemma IncompleteTextHasNoPercent()
    ensures Percent.PERCENT !in B("incomplete utf-8 byte sequence from index ")
  {
    NoPercentIn("incomplete utf-8 byte sequence from index ");
  }

  lemma ErrorTextHasNoPercent(s: bytes)
    requires !Utf8.Valid(s)
    ensures Percent.PERCENT !in B(UTF8_ERROR_PREFIX) + Utf8ErrorText(s)
  {
    hide *;
    PrefixHasNoPercent();
    InvalidTextHasNoPercent();
    IncompleteTextHasNoPercent();
    UpToIsInside(s);
    var n := Utf8.ValidUpTo(s);
    DigitsHaveNoPercent(n);
    Utf8ErrorTextIs(s);
    match Utf8.ErrorLength(s[n..])
    case Some(k) => DigitsHaveNoPercent(k);
    case None =>
  }

  lemma Utf8ErrorTextIs(s: bytes)
    requires !Utf8.Valid(s)
    ensures Utf8.ValidUpTo(s) < |s|
    ensures Utf8ErrorText(s) ==
            match Utf8.ErrorLength(s[Utf8.ValidUpTo(s)..])
            case Some(k) =>
              B("invalid utf-8 sequence of ") + Decimal.Digits(k)
              + B(" bytes from index ") + Decimal.Digits(Utf8.ValidUpTo(s))
            case None => B("incomplete utf-8 byte sequence from index ") + Decimal.Digits(Utf8.ValidUpTo(s))
  {
    UpToIsInside(s);
  }

  /** A message with an escape in it never comes back as it was. */
  lemma MessageRead(s: Status)
    requires Utf8.Valid(s.message) && s.message != []
    ensures var (code, message) := ReadMessage(s.code, Some(Percent.Encode(s.message)));
            && (message == s.message <==> Percent.NoEscape(s.message))
            && (Percent.NoEscape(s.message) ==> code == s.code)
            && (code == s.code <==> s.code.Unknown? || Utf8.Valid(Percent.Decode(s.message)))
  {
    hide Utf8ErrorText;
    Percent.DecodeEncode(s.message);
    Percent.DecodeIdentity(s.message);
    var text := Percent.Decode(s.message);
    if !Utf8.Valid(text) {
      ErrorTextHasNoPercent(text);
      assert Percent.PERCENT in s.message by {
        var i :| 0 <= i < |s.message| && Percent.StartsEscape(s.message[i..]);
        assert s.message[i] == Percent.PERCENT;
      }
    }
  }

  lemma HeaderNamesDiffer()
    ensures CODE_HEADER != MESSAGE_HEADER && CODE_HEADER != DETAILS_HEADER && MESSAGE_HEADER != DETAILS_HEADER
    ensures CODE_HEADER in RESERVED && MESSAGE_HEADER in RESERVED && DETAILS_HEADER !in RESERVED
  {
  }

  /** What each of the three headers holds after writing, and what is left without them. */
  lemma WrittenHeaders(s: Status)
    requires HeadersWellFormed(s.metadata)
    ensures var h := Written(map[], s);
            && First(h, CODE_HEADER) == Some(CodeText(s.code))
            && First(h, MESSAGE_HEADER) == (if s.message == [] then None else Some(Percent.Encode(s.message)))
            && First(h, DETAILS_HEADER) == (if s.details != [] then Some(Base64.Encode(s.details))
                                            else First(s.metadata, DETAILS_HEADER))
            && h - {CODE_HEADER, MESSAGE_HEADER, DETAILS_HEADER} == Kept(s.metadata)
  {
    hide Percent.Encode, Base64.Encode, CodeText;
    HeaderNamesDiffer();
    var h := Written(map[], s);
    assert map[] + Sanitized(s.metadata) == Sanitized(s.metadata);
    assert h - {CODE_HEADER, MESSAGE_HEADER, DETAILS_HEADER} == Kept(s.metadata);
  }

  /** The names under which a status travels. */
  lemma WireNames(s: Status)
    requires HeadersWellFormed(s.metadata)
    ensures var h := Written(map[], s);
            && "grpc-status" in h && h["grpc-status"] == [CodeText(s.code)]
            && (s.message == [] <==> "grpc-message" !in h)
            && (s.message != [] ==> h["grpc-message"] == [Percent.Encode(s.message)])
            && (s.details != [] ==>
                  "grpc-status-details-bin" in h && h["grpc-status-details-bin"] == [Base64.Encode(s.details)])
  {
    hide Percent.Encode, Base64.Encode, CodeText;
    HeaderNamesDiffer();
  }

  /** Every reading of a written status: absent never happens, the read panics exactly on
      undecodable foreign details, and otherwise code, message, details and metadata are as given. */
  lemma ReadWritten(s: Status)
    requires HeadersWellFormed(s.metadata)
    ensures Read(Written(map[], s)) ==
            if DetailsRead(s).None? then Panicked
            else
              var (code, message) :=
                ReadMessage(s.code, if s.message == [] then None else Some(Percent.Encode(s.message)));
              Found(Status(code, message, DetailsRead(s).value, Kept(s.metadata)))
  {
    hide ReadMessage, Written, First, Kept, CodeText, CodeFromText, Percent.Encode, Base64.Encode, Base64.Decode;
    WrittenHeaders(s);
    CodeRoundTrip(s.code);
    Base64.DecodeEncode(s.details);
  }

  /** A status survives its trip through the trailers exactly when its message holds no percent
      sign followed by two hexadecimal digits and the details are not shadowed by metadata. */
  lemma StatusRoundTrip(s: Status)
    requires HeadersWellFormed(s.metadata) && Utf8.Valid(s.message)
    ensures Read(Written(map[], s)) == Found(s.(metadata := Kept(s.metadata)))
            <==> Percent.NoEscape(s.message) && DetailsRead(s) == Some(s.details)
  {
    hide ReadMessage;
    ReadWritten(s);
    if s.message != [] {
      MessageRead(s);
    } else {
      EmptyMessageRead(s.code);
    }
  }

  lemma EmptyMessageRead(code: Code)
    ensures ReadMessage(code, None) == (code, [])
  {
  }

  /** An escape that decodes to ill-formed text costs the status its code as well. */
  lemma CodeCanBeLost()
    ensures var s := New(NotFound, B("%FF"));
            Read(Written(map[], s)).Found? && Read(Written(map[], s)).status.code == Unknown
  {
    var s := New(NotFound, B("%FF"));
    Utf8.AsciiValid(s.message);
    ReadWritten(s);
    Percent.DecodeEncode(s.message);
    assert s.message == [37, 70, 70];
    assert Percent.Decode(s.message) == [255];
    assert Utf8.Head([255]) == 0;
  }

  /** A details header in the metadata that is no base64 makes the reader panic. */
  lemma DetailsCanPanic()
    ensures Read(Written(map[], Status(NotFound, [], [], map[DETAILS_HEADER := [B("!")]]))) == Panicked
  {
    var s := Status(NotFound, [], [], map[DETAILS_HEADER := [B("!")]]);
    assert HeadersWellFormed(s.metadata);
    ReadWritten(s);
  }

  // ---- inference from trailers ---------------------------------------------------------------

  /** Result of `Status::infer_grpc_status`: fine, a clean end with nothing to report, or an error. */
  datatype Inference = Fine | Silent | Faulty(status: Status) | Broken

  function MissingStatus(http: nat): Status {
    New(if http == 400 then Internal
        else if http == 401 then Unauthenticated
        else if http == 403 then PermissionDenied
        else if http == 404 then Unimplemented
        else if http in {429, 502, 503, 504} then Unavailable
        else Unknown,
        B("grpc-status header missing, mapped from HTTP status code ") + Decimal.Digits(http))
  }

  function Infer(trailers: Option<Headers>, http: nat): Inference {
    var reading := if trailers.None? then Absent else Read(trailers.value);
    match reading
    case Panicked => Broken
    case Found(s) => if s.code == CodeOk then Fine else Faulty(s)
    case Absent => if http == 200 then Silent else Faulty(MissingStatus(http))
  }

  /** `Status::infer_grpc_status`. */
  method InferStatus(trailers: Option<Headers>, http: nat) returns (r: Inference)
    ensures r == Infer(trailers, http)
  {
    if trailers.Some? {
      var h := new HeaderMap(trailers.value);
      var reading := FromHeaderMap(h);
      match reading {
        case Panicked => return Broken;
        case Found(s) => return if s.code == CodeOk then Fine else Faulty(s);
        case Absent =>
      }
    }
    return if http == 200 then Silent else Faulty(MissingStatus(http));
  }
}
